// What a registered constraint demands of the live nodes, what a CREATE must
// meet, and which runs keep every constraint true.

module ConstraintRules {
  import opened GraphTypes
  import opened Sequences
  import opened AbstractGraph
  import opened Floats

  datatype Kind = BooleanKind | StringKind | IntegerKind | FloatKind

  predicate MatchesKind(v: PropertyValue, kind: Kind) {
    match kind
    case BooleanKind => v.Bool?
    case StringKind => v.Str?
    case IntegerKind => v.Int?
    case FloatKind => v.Float?
  }

  datatype Constraint =
    | Unique(lab: string, key: string)
    | NotNull(lab: string, key: string)
    | NodeKey(lab: string, keys: seq<string>)
    | PropertyType(lab: string, key: string, kind: Kind)

  datatype Rules = Rules(
    unique: map<string, set<string>>,
    notNull: map<string, set<string>>,
    nodeKeys: map<string, seq<seq<string>>>,
    types: map<string, map<string, Kind>>)

  const NoRules := Rules(map[], map[], map[], map[])

  predicate Registered(rules: Rules, c: Constraint) {
    match c
    case Unique(l, k) => l in rules.unique && k in rules.unique[l]
    case NotNull(l, k) => l in rules.notNull && k in rules.notNull[l]
    case NodeKey(l, ks) => l in rules.nodeKeys && ks in rules.nodeKeys[l]
    case PropertyType(l, k, kind) => l in rules.types && k in rules.types[l] && rules.types[l][k] == kind
  }

  // A property has one declared type: a later declaration replaces it.
  function Register(rules: Rules, c: Constraint): Rules {
    match c
    case Unique(l, k) =>
      rules.(unique := rules.unique[l := (if l in rules.unique then rules.unique[l] else {}) + {k}])
    case NotNull(l, k) =>
      rules.(notNull := rules.notNull[l := (if l in rules.notNull then rules.notNull[l] else {}) + {k}])
    case NodeKey(l, ks) =>
      rules.(nodeKeys := rules.nodeKeys[l := (if l in rules.nodeKeys then rules.nodeKeys[l] else []) + [ks]])
    case PropertyType(l, k, kind) =>
      rules.(types := rules.types[l := (if l in rules.types then rules.types[l] else map[])[k := kind]])
  }

  // --- Comparing values ---

  const SOME_NAN: F64 := 0x7FF8_0000_0000_0000

  // What `{:?}` text tells apart: everything but the payloads of NaNs.
  function Printed(v: PropertyValue): PropertyValue {
    if v.Float? && IsNaN(v.f) then Float(SOME_NAN) else v
  }

  function PrintedAt(props: Props, key: string): Option<PropertyValue> {
    if key in props then Some(Printed(props[key])) else None
  }

  function PrintedTuple(props: Props, keys: seq<string>): (r: seq<Option<PropertyValue>>)
    ensures |r| == |keys|
  {
    seq(|keys|, i requires 0 <= i < |keys| => PrintedAt(props, keys[i]))
  }

  // The clash the check looks for: filed under the same index key and `==`.
  predicate Clash(a: PropertyValue, b: PropertyValue) {
    a == b && PropEq(a, b)
  }

  // --- What each constraint demands ---

  predicate Labelled(nodes: map<NodeId, Node>, i: NodeId, lab: string) {
    i in nodes && lab in nodes[i].labels
  }

  predicate HasKeys(props: Props, keys: seq<string>) {
    forall k :: k in keys ==> k in props
  }

  ghost predicate Holds(c: Constraint, nodes: map<NodeId, Node>) {
    match c
    case Unique(l, k) =>
      forall i, j | i != j && Labelled(nodes, i, l) && Labelled(nodes, j, l) ::
        k in nodes[i].props && k in nodes[j].props ==> !Clash(nodes[i].props[k], nodes[j].props[k])
    case NotNull(l, k) => forall i | Labelled(nodes, i, l) :: k in nodes[i].props
    case NodeKey(l, ks) =>
      && (forall i | Labelled(nodes, i, l) :: HasKeys(nodes[i].props, ks))
      && (forall i, j | i != j && Labelled(nodes, i, l) && Labelled(nodes, j, l) ::
            PrintedTuple(nodes[i].props, ks) != PrintedTuple(nodes[j].props, ks))
    case PropertyType(l, k, kind) =>
      forall i | Labelled(nodes, i, l) :: k in nodes[i].props ==> MatchesKind(nodes[i].props[k], kind)
  }

  // The same bits and a number: a NaN is no value twice.
  predicate SameNumber(a: PropertyValue, b: PropertyValue) {
    a == b && !(a.Float? && IsNaN(a.f))
  }

  predicate SamePrint(a: PropertyValue, b: PropertyValue) {
    a == b || (a.Float? && b.Float? && IsNaN(a.f) && IsNaN(b.f))
  }

  // In terms of the nodes and their properties alone.
  lemma UniqueMeans(nodes: map<NodeId, Node>, lab: string, key: string)
    ensures Holds(Unique(lab, key), nodes) <==>
              forall i, j ::
                (i in nodes && j in nodes && i != j && lab in nodes[i].labels && lab in nodes[j].labels
                 && key in nodes[i].props && key in nodes[j].props)
                ==> !SameNumber(nodes[i].props[key], nodes[j].props[key])
  {
    forall a: PropertyValue, b: PropertyValue ensures Clash(a, b) <==> SameNumber(a, b) {
      if a.Float? && b.Float? { FloatEqVersusBits(a.f, b.f); }
    }
    hide Clash, SameNumber;
  }

  lemma NodeKeyMeans(nodes: map<NodeId, Node>, lab: string, keys: seq<string>)
    ensures Holds(NodeKey(lab, keys), nodes) <==>
              && (forall i, k :: i in nodes && lab in nodes[i].labels && k in keys ==> k in nodes[i].props)
              && (forall i, j :: i in nodes && j in nodes && i != j && lab in nodes[i].labels && lab in nodes[j].labels ==>
                    exists k :: k in keys && k in nodes[i].props && k in nodes[j].props
                             && !SamePrint(nodes[i].props[k], nodes[j].props[k]))
  {
    hide PrintedTuple, SamePrint;
    if forall i, k :: i in nodes && lab in nodes[i].labels && k in keys ==> k in nodes[i].props {
      forall i, j | i in nodes && j in nodes && lab in nodes[i].labels && lab in nodes[j].labels
        ensures PrintedTuple(nodes[i].props, keys) != PrintedTuple(nodes[j].props, keys) <==>
                exists k :: k in keys && k in nodes[i].props && k in nodes[j].props
                         && !SamePrint(nodes[i].props[k], nodes[j].props[k])
      {
        TuplesDiffer(nodes[i].props, nodes[j].props, keys);
      }
    }
  }

  lemma TuplesDiffer(p: Props, q: Props, keys: seq<string>)
    requires HasKeys(p, keys) && HasKeys(q, keys)
    ensures PrintedTuple(p, keys) != PrintedTuple(q, keys) <==>
            exists k :: k in keys && k in p && k in q && !SamePrint(p[k], q[k])
  {
    forall k | k in keys ensures PrintedAt(p, k) == PrintedAt(q, k) <==> SamePrint(p[k], q[k]) {}
    if PrintedTuple(p, keys) != PrintedTuple(q, keys) {
      var i :| 0 <= i < |keys| && PrintedTuple(p, keys)[i] != PrintedTuple(q, keys)[i];
      assert keys[i] in keys;
    }
    if k :| k in keys && !SamePrint(p[k], q[k]) {
      var i :| 0 <= i < |keys| && keys[i] == k;
      assert PrintedTuple(p, keys)[i] != PrintedTuple(q, keys)[i];
    }
  }

  // A declared type admits the values of its own kind only.
  lemma TypeMeans(nodes: map<NodeId, Node>, lab: string, key: string, kind: Kind)
    ensures Holds(PropertyType(lab, key, kind), nodes) <==>
              forall i :: i in nodes && lab in nodes[i].labels && key in nodes[i].props ==>
                match nodes[i].props[key]
                case Bool(_) => kind.BooleanKind?
                case Str(_) => kind.StringKind?
                case Int(_) => kind.IntegerKind?
                case Float(_) => kind.FloatKind?
  {
  }

  ghost predicate RulesHold(rules: Rules, nodes: map<NodeId, Node>) {
    forall c | Registered(rules, c) :: Holds(c, nodes)
  }

  // What registration demands: for UNIQUE that no two printed values agree,
  // which is a little more than the constraint itself.
  ghost predicate CanRegister(c: Constraint, nodes: map<NodeId, Node>) {
    if c.Unique? then
      forall i, j | i != j && Labelled(nodes, i, c.lab) && Labelled(nodes, j, c.lab) ::
        c.key in nodes[i].props && c.key in nodes[j].props ==> Printed(nodes[i].props[c.key]) != Printed(nodes[j].props[c.key])
    else Holds(c, nodes)
  }

  // Registration asks more than the constraint exactly over NaNs.
  lemma RegistrationIsStricterOnNaN(lab: string, key: string, nodes: map<NodeId, Node>)
    ensures CanRegister(Unique(lab, key), nodes) <==>
              && Holds(Unique(lab, key), nodes)
              && forall i, j | i != j && Labelled(nodes, i, lab) && Labelled(nodes, j, lab) ::
                   key in nodes[i].props && key in nodes[j].props ==>
                     NotNaN(nodes[i].props[key]) || NotNaN(nodes[j].props[key])
  {
    forall a: PropertyValue, b: PropertyValue
      ensures Printed(a) == Printed(b) <==> Clash(a, b) || (!NotNaN(a) && !NotNaN(b))
    {
      if a.Float? && b.Float? { FloatEqVersusBits(a.f, b.f); }
    }
  }

  // UNIQUE under `==` holds of the nodes exactly when UNIQUE holds and no two
  // of them store the two zeros.
  lemma UniqueUnderEquality(lab: string, key: string, nodes: map<NodeId, Node>)
    ensures (forall i, j | i != j && Labelled(nodes, i, lab) && Labelled(nodes, j, lab) ::
               key in nodes[i].props && key in nodes[j].props ==> !PropEq(nodes[i].props[key], nodes[j].props[key])) <==>
              && Holds(Unique(lab, key), nodes)
              && forall i, j | i != j && Labelled(nodes, i, lab) && Labelled(nodes, j, lab) ::
                   key in nodes[i].props && key in nodes[j].props ==>
                     NotZeroFloat(nodes[i].props[key]) || NotZeroFloat(nodes[j].props[key])
  {
    forall a: PropertyValue, b: PropertyValue
      ensures PropEq(a, b) <==> Clash(a, b) || (!NotZeroFloat(a) && !NotZeroFloat(b))
    {
      if a.Float? && b.Float? { FloatEqVersusBits(a.f, b.f); }
    }
  }

  // --- What a CREATE is checked for ---

  ghost predicate Rejects(c: Constraint, nodes: map<NodeId, Node>, labels: seq<string>, props: Props) {
    c.lab in labels &&
    match c
    case Unique(l, k) => k in props && exists i | Labelled(nodes, i, l) :: k in nodes[i].props && Clash(nodes[i].props[k], props[k])
    case NotNull(l, k) => k !in props
    case NodeKey(l, ks) =>
      !HasKeys(props, ks) || exists i | Labelled(nodes, i, l) :: PrintedTuple(nodes[i].props, ks) == PrintedTuple(props, ks)
    case PropertyType(l, k, kind) => k in props && !MatchesKind(props[k], kind)
  }

  ghost predicate Accepts(rules: Rules, nodes: map<NodeId, Node>, labels: seq<string>, props: Props) {
    forall c | Registered(rules, c) :: !Rejects(c, nodes, labels, props)
  }

  lemma CheckIsExact(c: Constraint, nodes: map<NodeId, Node>, n: Node)
    requires Holds(c, nodes) && n.id !in nodes
    ensures Holds(c, nodes[n.id := n]) <==> !Rejects(c, nodes, n.labels, n.props)
  {
    hide PrintedTuple, PropEq;
    var after := nodes[n.id := n];
    forall i | i in nodes ensures Labelled(after, i, c.lab) <==> Labelled(nodes, i, c.lab) {}
    assert Labelled(after, n.id, c.lab) <==> c.lab in n.labels;
    ClashSymmetric();
    match c
    case Unique(l, k) => UniqueExact(l, k, nodes, n);
    case NodeKey(l, ks) => NodeKeyExact(l, ks, nodes, n);
    case _ =>
  }

  lemma ClashSymmetric()
    ensures forall a, b :: Clash(a, b) ==> Clash(b, a)
  {
  }

  lemma UniqueExact(l: string, k: string, nodes: map<NodeId, Node>, n: Node)
    requires Holds(Unique(l, k), nodes) && n.id !in nodes
    ensures Holds(Unique(l, k), nodes[n.id := n]) <==> !Rejects(Unique(l, k), nodes, n.labels, n.props)
  {
    hide PropEq;
    var after := nodes[n.id := n];
    ClashSymmetric();
    if Rejects(Unique(l, k), nodes, n.labels, n.props) {
      var i :| Labelled(nodes, i, l) && k in nodes[i].props && Clash(nodes[i].props[k], n.props[k]);
      assert Labelled(after, i, l) && Labelled(after, n.id, l);
    } else {
      forall i, j | i != j && Labelled(after, i, l) && Labelled(after, j, l) && k in after[i].props && k in after[j].props
        ensures !Clash(after[i].props[k], after[j].props[k])
      {
        if i != n.id { assert Labelled(nodes, i, l); }
        if j != n.id { assert Labelled(nodes, j, l); }
      }
    }
  }

  lemma NodeKeyExact(l: string, ks: seq<string>, nodes: map<NodeId, Node>, n: Node)
    requires Holds(NodeKey(l, ks), nodes) && n.id !in nodes
    ensures Holds(NodeKey(l, ks), nodes[n.id := n]) <==> !Rejects(NodeKey(l, ks), nodes, n.labels, n.props)
  {
    hide PrintedTuple;
    var after := nodes[n.id := n];
    if Rejects(NodeKey(l, ks), nodes, n.labels, n.props) {
      assert Labelled(after, n.id, l);
      if HasKeys(n.props, ks) {
        var i :| Labelled(nodes, i, l) && PrintedTuple(nodes[i].props, ks) == PrintedTuple(n.props, ks);
        assert Labelled(after, i, l);
      }
    } else {
      forall i | Labelled(after, i, l) ensures HasKeys(after[i].props, ks) {
        if i != n.id { assert Labelled(nodes, i, l); }
      }
      forall i, j | i != j && Labelled(after, i, l) && Labelled(after, j, l)
        ensures PrintedTuple(after[i].props, ks) != PrintedTuple(after[j].props, ks)
      {
        if i != n.id { assert Labelled(nodes, i, l); }
        if j != n.id { assert Labelled(nodes, j, l); }
      }
    }
  }

  // A checked CREATE goes through exactly when every constraint still holds after it.
  lemma CreateChecksAreExact(rules: Rules, g: Graph, labels: seq<string>, props: Props)
    requires GraphOk(g) && RulesHold(rules, g.nodes)
    ensures Accepts(rules, g.nodes, labels, props) <==> RulesHold(rules, AddNode(g, labels, props).nodes)
  {
    hide Holds, Rejects, Registered;
    var n := Node(g.nextNode, labels, props);
    forall c | Registered(rules, c)
      ensures Holds(c, AddNode(g, labels, props).nodes) <==> !Rejects(c, g.nodes, labels, props)
    {
      CheckIsExact(c, g.nodes, n);
    }
  }

  // --- Runs ---

  // No node is new, none has a new label, and properties are as they were.
  ghost predicate Fewer(before: map<NodeId, Node>, after: map<NodeId, Node>) {
    forall i | i in after ::
      i in before && after[i].props == before[i].props && forall l :: l in after[i].labels ==> l in before[i].labels
  }

  lemma FewerKeepsConstraint(c: Constraint, before: map<NodeId, Node>, after: map<NodeId, Node>)
    requires Holds(c, before) && Fewer(before, after)
    ensures Holds(c, after)
  {
    hide PrintedTuple, Clash, MatchesKind;
    forall i | Labelled(after, i, c.lab) ensures Labelled(before, i, c.lab) {}
  }

  // The writes that run no check and need none.
  predicate Unchecked(op: Op) {
    || op.CreateEdge? || op.DeleteEdge? || op.DeleteNode? || op.RemoveNodeLabels?
    || op.SetEdgeProperty? || op.SetEdgeAllProperties? || op.MergeEdgeProperties? || op.RemoveEdgeProperty?
  }

  lemma UncheckedKeepsRules(rules: Rules, g: Graph, op: Op)
    requires RulesHold(rules, g.nodes) && Unchecked(op)
    ensures RulesHold(rules, Apply(g, op).nodes)
  {
    hide Holds, Registered;
    assert Fewer(g.nodes, Apply(g, op).nodes);
    forall c | Registered(rules, c) ensures Holds(c, Apply(g, op).nodes) {
      FewerKeepsConstraint(c, g.nodes, Apply(g, op).nodes);
    }
  }

  // --- The writes that run no check although they can break a constraint ---

  predicate UpdatesNode(op: Op) {
    || op.SetNodeProperty? || op.SetNodeAllProperties? || op.MergeNodeProperties? || op.RemoveNodeProperty?
    || op.AddNodeLabels? || op.RemoveNodeLabels?
  }

  function Updated(n: Node, op: Op): Node
    requires UpdatesNode(op)
  {
    match op
    case SetNodeProperty(_, k, v) => n.(props := n.props[k := v])
    case SetNodeAllProperties(_, props) => n.(props := props)
    case MergeNodeProperties(_, props) => n.(props := n.props + props)
    case RemoveNodeProperty(_, k) => n.(props := n.props - {k})
    case AddNodeLabels(_, ls) => n.(labels := LabelsAfterAdd(n.labels, ls))
    case RemoveNodeLabels(_, ls) => n.(labels := LabelsAfterRemove(n.labels, ls))
  }

  // What would have to be checked before the write: the node as it will be,
  // against the others.
  ghost predicate WriteFits(rules: Rules, g: Graph, op: Op) {
    if op.CreateNode? then Accepts(rules, g.nodes, op.labels, op.props)
    else
      UpdatesNode(op) && op.id in g.nodes ==>
        var n := Updated(g.nodes[op.id], op);
        Accepts(rules, g.nodes - {op.id}, n.labels, n.props)
  }

  lemma UpdateReplaces(g: Graph, op: Op)
    requires UpdatesNode(op) && op.id in g.nodes
    ensures Apply(g, op).nodes == (g.nodes - {op.id})[op.id := Updated(g.nodes[op.id], op)]
  {
  }

  lemma WithoutOneHolds(rules: Rules, g: Graph, id: NodeId)
    requires RulesHold(rules, g.nodes)
    ensures RulesHold(rules, g.nodes - {id})
  {
    hide Holds, Registered;
    forall c | Registered(rules, c) ensures Holds(c, g.nodes - {id}) {
      FewerKeepsConstraint(c, g.nodes, g.nodes - {id});
    }
  }

  lemma ReplacingIsExact(rules: Rules, nodes: map<NodeId, Node>, n: Node)
    requires RulesHold(rules, nodes) && n.id !in nodes
    ensures Accepts(rules, nodes, n.labels, n.props) <==> RulesHold(rules, nodes[n.id := n])
  {
    hide Holds, Rejects, Registered;
    forall c | Registered(rules, c) ensures Holds(c, nodes[n.id := n]) <==> !Rejects(c, nodes, n.labels, n.props) {
      CheckIsExact(c, nodes, n);
    }
  }

  // A write of any kind leaves every constraint true exactly when it fits.
  lemma WritesAreExact(rules: Rules, g: Graph, op: Op)
    requires GraphOk(g) && RulesHold(rules, g.nodes)
    ensures RulesHold(rules, Apply(g, op).nodes) <==> WriteFits(rules, g, op)
  {
    hide RulesHold, Accepts;
    if op.CreateNode? {
      CreateChecksAreExact(rules, g, op.labels, op.props);
    } else if UpdatesNode(op) {
      if op.id in g.nodes {
        UpdateReplaces(g, op);
        WithoutOneHolds(rules, g, op.id);
        ReplacingIsExact(rules, g.nodes - {op.id}, Updated(g.nodes[op.id], op));
      }
    } else {
      UncheckedKeepsRules(rules, g, op);
    }
  }

  // Over a whole run every constraint holds at every point exactly when every
  // write fits when it is made.
  lemma {:induction false} RunsAreExact(rules: Rules, g: Graph, ops: seq<Op>)
    requires GraphOk(g) && RulesHold(rules, g.nodes)
    ensures (forall n :: 0 <= n <= |ops| ==> RulesHold(rules, ApplyAll(g, ops[..n]).nodes)) <==>
            (forall i :: 0 <= i < |ops| ==> WriteFits(rules, ApplyAll(g, ops[..i]), ops[i]))
    decreases |ops|
  {
    hide GraphOk, RulesHold, WriteFits, Apply;
    if ops == [] {
      assert forall n :: n == 0 ==> ops[..n] == [];
    } else {
      var h := Apply(g, ops[0]);
      WritesAreExact(rules, g, ops[0]);
      ApplyKeepsGraphOk(g, ops[0]);
      forall n | 0 < n <= |ops| ensures ApplyAll(g, ops[..n]) == ApplyAll(h, ops[1..][..n - 1]) {
        assert ops[..n][0] == ops[0] && ops[..n][1..] == ops[1..][..n - 1];
      }
      assert ops[..0] == [];
      if RulesHold(rules, h.nodes) {
        RunsAreExact(rules, h, ops[1..]);
        ShiftedPoints(rules, g, h, ops);
      } else {
        assert ops[..1][1..] == [] && ApplyAll(g, ops[..1]) == h;
        assert !WriteFits(rules, ApplyAll(g, ops[..0]), ops[0]);
      }
    }
  }

  lemma ShiftedPoints(rules: Rules, g: Graph, h: Graph, ops: seq<Op>)
    requires ops != [] && RulesHold(rules, g.nodes) && WriteFits(rules, g, ops[0])
    requires forall n :: 0 < n <= |ops| ==> ApplyAll(g, ops[..n]) == ApplyAll(h, ops[1..][..n - 1])
    requires (forall n :: 0 <= n <= |ops[1..]| ==> RulesHold(rules, ApplyAll(h, ops[1..][..n]).nodes)) <==>
             (forall i :: 0 <= i < |ops[1..]| ==> WriteFits(rules, ApplyAll(h, ops[1..][..i]), ops[1..][i]))
    ensures (forall n :: 0 <= n <= |ops| ==> RulesHold(rules, ApplyAll(g, ops[..n]).nodes)) <==>
            (forall i :: 0 <= i < |ops| ==> WriteFits(rules, ApplyAll(g, ops[..i]), ops[i]))
  {
    hide RulesHold, WriteFits;
    var rest := ops[1..];
    assert ops[..0] == [] && ApplyAll(g, ops[..0]) == g;
    if forall n :: 0 <= n <= |ops| ==> RulesHold(rules, ApplyAll(g, ops[..n]).nodes) {
      forall n | 0 <= n <= |rest| ensures RulesHold(rules, ApplyAll(h, rest[..n]).nodes) {
        assert ApplyAll(g, ops[..n + 1]) == ApplyAll(h, rest[..n]);
      }
      forall i | 0 <= i < |ops| ensures WriteFits(rules, ApplyAll(g, ops[..i]), ops[i]) {
        if i > 0 {
          assert WriteFits(rules, ApplyAll(h, rest[..i - 1]), rest[i - 1]);
        }
      }
    }
    if forall i :: 0 <= i < |ops| ==> WriteFits(rules, ApplyAll(g, ops[..i]), ops[i]) {
      forall i | 0 <= i < |rest| ensures WriteFits(rules, ApplyAll(h, rest[..i]), rest[i]) {
        assert WriteFits(rules, ApplyAll(g, ops[..i + 1]), ops[i + 1]);
      }
      forall n | 0 <= n <= |ops| ensures RulesHold(rules, ApplyAll(g, ops[..n]).nodes) {
        if n > 0 {
          assert RulesHold(rules, ApplyAll(h, rest[..n - 1]).nodes);
        }
      }
    }
  }

  // Such a write: SET makes two nodes share a value.
  lemma SetCanBreakUnique()
    ensures var g := Graph(map[0 := Node(0, ["A"], map["k" := Int(1)]), 1 := Node(1, ["A"], map["k" := Int(2)])], map[], 2, 0);
            && GraphOk(g) && Holds(Unique("A", "k"), g.nodes)
            && !Holds(Unique("A", "k"), Apply(g, SetNodeProperty(1, "k", Int(1))).nodes)
  {
    var g := Graph(map[0 := Node(0, ["A"], map["k" := Int(1)]), 1 := Node(1, ["A"], map["k" := Int(2)])], map[], 2, 0);
    var after := Apply(g, SetNodeProperty(1, "k", Int(1))).nodes;
    assert Labelled(after, 0, "A") && Labelled(after, 1, "A");
    assert Clash(after[0].props["k"], after[1].props["k"]);
  }

  datatype Step = Declare(c: Constraint) | Create(labels: seq<string>, props: Props) | Write(op: Op)

  datatype State = State(g: Graph, rules: Rules)

  ghost predicate InRunSet(s: Step) {
    s.Write? ==> Unchecked(s.op)
  }

  // A step that its checks refuse changes nothing.
  ghost function Next(s: State, step: Step): State {
    match step
    case Declare(c) => if CanRegister(c, s.g.nodes) then s.(rules := Register(s.rules, c)) else s
    case Create(labels, props) =>
      if Accepts(s.rules, s.g.nodes, labels, props) then s.(g := AddNode(s.g, labels, props)) else s
    case Write(op) => s.(g := Apply(s.g, op))
  }

  ghost function NextAll(s: State, steps: seq<Step>): State {
    if steps == [] then s else Next(NextAll(s, Init(steps)), Last(steps))
  }

  // A property has one declared type, the last.
  predicate Supersedes(c: Constraint, d: Constraint) {
    c.PropertyType? && d.PropertyType? && c.lab == d.lab && c.key == d.key
  }

  // Afterwards the constraint is registered, with all that were before but the
  // type it supersedes, and nothing else is.
  lemma RegisteredAfter(rules: Rules, c: Constraint, d: Constraint)
    ensures Registered(Register(rules, c), d) <==> d == c || (Registered(rules, d) && !Supersedes(c, d))
  {
  }

  lemma RegistersOnly(rules: Rules, c: Constraint)
    ensures forall d :: Registered(Register(rules, c), d) <==> d == c || (Registered(rules, d) && !Supersedes(c, d))
  {
    hide Register, Registered;
    forall d ensures Registered(Register(rules, c), d) <==> d == c || (Registered(rules, d) && !Supersedes(c, d)) {
      RegisteredAfter(rules, c, d);
    }
  }

  lemma NothingRegistered(c: Constraint)
    ensures !Registered(NoRules, c)
  {
  }

  // A declaration that fails and a refused CREATE leave everything as it was;
  // one that succeeds is registered, and a node that passes is there with its
  // labels and properties.
  lemma NextMeans(s: State, step: Step)
    ensures step.Declare? ==> Next(s, step).g == s.g && forall d ::
              Registered(Next(s, step).rules, d) <==>
                if CanRegister(step.c, s.g.nodes) then d == step.c || (Registered(s.rules, d) && !Supersedes(step.c, d))
                else Registered(s.rules, d)
    ensures !step.Declare? ==> Next(s, step).rules == s.rules
    ensures step.Create? ==>
              if Accepts(s.rules, s.g.nodes, step.labels, step.props)
              then Next(s, step).g.nodes == s.g.nodes[s.g.nextNode := Node(s.g.nextNode, step.labels, step.props)]
              else Next(s, step).g == s.g
    ensures step.Write? ==> Next(s, step).g == Apply(s.g, step.op)
  {
    hide CanRegister, Registered, Register, Apply;
    if step.Declare? {
      RegistersOnly(s.rules, step.c);
    }
  }

  lemma StepKeepsRules(s: State, step: Step)
    requires GraphOk(s.g) && RulesHold(s.rules, s.g.nodes) && InRunSet(step)
    ensures GraphOk(Next(s, step).g) && RulesHold(Next(s, step).rules, Next(s, step).g.nodes)
  {
    match step
    case Declare(c) =>
      if CanRegister(c, s.g.nodes) {
        if c.Unique? {
          RegistrationIsStricterOnNaN(c.lab, c.key, s.g.nodes);
        }
        hide Holds, Register, Registered;
        forall d | Registered(Register(s.rules, c), d) ensures Holds(d, s.g.nodes) {
          RegisteredAfter(s.rules, c, d);
        }
      }
    case Create(labels, props) =>
      hide RulesHold, Accepts;
      ApplyKeepsGraphOk(s.g, CreateNode(labels, props));
      CreateChecksAreExact(s.rules, s.g, labels, props);
    case Write(op) =>
      hide RulesHold;
      ApplyKeepsGraphOk(s.g, op);
      UncheckedKeepsRules(s.rules, s.g, op);
  }

  // Over every run of the set, every registered constraint holds of all live nodes.
  lemma {:induction false} RunsKeepRules(s: State, steps: seq<Step>)
    requires GraphOk(s.g) && RulesHold(s.rules, s.g.nodes)
    requires forall i :: 0 <= i < |steps| ==> InRunSet(steps[i])
    ensures GraphOk(NextAll(s, steps).g) && RulesHold(NextAll(s, steps).rules, NextAll(s, steps).g.nodes)
    decreases |steps|
  {
    hide GraphOk, RulesHold, Next;
    if steps != [] {
      RunsKeepRules(s, Init(steps));
      StepKeepsRules(NextAll(s, Init(steps)), Last(steps));
    }
  }
}
