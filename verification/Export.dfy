// `export_cypher` of egrph-core/src/graph/mod.rs and the replay of what it
// prints: one pattern part per node and per relationship.

module Export {
  import opened GraphTypes
  import opened Sequences
  import opened Floats
  import opened AbstractGraph
  import opened MemoryStorages
  import opened Expressions
  import opened Planner
  import opened Decimals
  import opened StringLiterals
  import opened Identifiers
  import opened CreateClauses

  // --- Values as text ---

  // The decimal text of a float is not modelled; it stands for the value.
  datatype ValueText = Chars(s: string) | Digits(f: F64)

  // A float that is not a number or not finite is printed as a name.
  function PrintFloat(f: F64): ValueText {
    if IsFinite(f) then Digits(f)
    else if IsNaN(f) then Chars("NaN")
    else if f < TWO63 then Chars("inf") else Chars("-inf")
  }

  function PrintValue(v: PropertyValue): ValueText {
    match v
    case Str(s) => Chars("\"" + EscapeForExport(s) + "\"")
    case Int(i) => Chars(IntToString(i))
    case Float(f) => PrintFloat(f)
    case Bool(b) => Chars(if b then "true" else "false")
  }

  predicate IsFinite(f: F64) {
    Magnitude(f) < INFINITY_BITS
  }

  // The rules of the grammar on a whole value text: a literal or a variable,
  // after a minus sign or not. None is a text it does not read.
  function ReadValue(p: ValueText): Option<Expr> {
    match p
    case Digits(f) => Some(if f < TWO63 then Literal(LFloat(f)) else Neg(Literal(LFloat(f - TWO63))))
    case Chars(s) =>
      if "-" <= s then
        var operand := ReadAtom(s[1..]);
        if operand.None? then None else Some(Neg(operand.value))
      else ReadAtom(s)
  }

  function ReadAtom(s: string): Option<Expr> {
    if s == [] then None
    else if s[0] == '"' then
      if TokenLength(s) != Some(|s|) then None
      else
        var text := if |s| < 2 then None else Unescaped(s[1..|s| - 1]);
        if text.None? then None else Some(Literal(LString(text.value)))
    else if s == "true" then Some(Literal(LBoolean(true)))
    else if s == "false" then Some(Literal(LBoolean(false)))
    else if IsDigit(s[0]) then
      var n := ParseIntegerValue(s);
      if n.None? then None else Some(Literal(LInteger(n.value)))
    else if IsIdentifier(s) then Some(Variable(s))
    else None
  }

  // Every value but the least integer.
  predicate Readable(v: PropertyValue) {
    v != Int(-0x8000_0000_0000_0000)
  }

  // Every value but the floats that are not numbers or not finite.
  predicate Storable(v: PropertyValue) {
    v.Float? ==> IsFinite(v.f)
  }

  // A row in which the names non-finite floats are printed as are not bound.
  predicate NoFloatNames(rec: Record) {
    "NaN" !in rec && "inf" !in rec
  }

  // What a value text comes to on such a row.
  ghost predicate Means(e: Expr, v: Value) {
    forall rec, ctx :: NoFloatNames(rec) ==> Eval(e, rec, ctx) == Some(v)
  }

  lemma ReadInteger(n: nat)
    ensures ReadAtom(NatToString(n)) ==
            if n < 0x8000_0000_0000_0000 then Some(Literal(LInteger(n as int))) else None
    ensures NatToString(n) != [] && NatToString(n)[0] != '-'
  {
    hide ParseIntegerValue;
    var s := NatToString(n);
    assert s[0] in s;
    NatReads(n);
  }

  lemma ReadFloat(f: F64)
    ensures ReadValue(PrintFloat(f)).Some?
    ensures Means(ReadValue(PrintFloat(f)).value, if IsFinite(f) then FloatVal(f) else Null)
  {
    hide IsIdentifier;
    var e := if IsFinite(f) then (if f < TWO63 then Literal(LFloat(f)) else Neg(Literal(LFloat(f - TWO63))))
             else if IsNaN(f) then Variable("NaN")
             else if f < TWO63 then Variable("inf") else Neg(Variable("inf"));
    NonNumbersRead();
    assert "NaN"[0] == 'N' && "inf"[0] == 'i' && "-inf"[0] == '-' && "-inf"[1..] == "inf";
    assert ReadValue(PrintFloat(f)) == Some(e);
    forall rec, ctx | NoFloatNames(rec)
      ensures Eval(e, rec, ctx) == Some(if IsFinite(f) then FloatVal(f) else Null)
    {
      assert e.Neg? ==> Eval(e.operand, rec, ctx) == Some(if IsFinite(f) then FloatVal(f - TWO63) else Null);
    }
  }

  // A printed value is read unless it is the least integer; it comes to itself
  // when it is storable, and to null, by a name that is not bound, when not.
  lemma ReadPrinted(v: PropertyValue)
    ensures ReadValue(PrintValue(v)).Some? <==> Readable(v)
    ensures Readable(v) ==> Means(ReadValue(PrintValue(v)).value, if Storable(v) then ToValue(v) else Null)
  {
    hide EscapeForExport, Unescaped, TokenLength, ParseIntegerValue, NatToString, IsIdentifier;
    match v
    case Str(s) =>
      var token := "\"" + EscapeForExport(s) + "\"";
      StringRoundTrip(s);
      TokenEndsWherePrinted(s, "");
      assert token + "" == token && token[0] == '"';
    case Int(i) =>
      SignIsFirst(i);
      ReadInteger(Abs(i));
      assert "-" <= IntToString(i) <==> i < 0;
      if Readable(v) {
        var e := ReadValue(PrintValue(v)).value;
        assert e == if i < 0 then Neg(Literal(LInteger(-i))) else Literal(LInteger(i));
        forall rec, ctx ensures Eval(e, rec, ctx) == Some(Integer(i)) {
          assert i < 0 ==> Eval(Literal(LInteger(-i)), rec, ctx) == Some(Integer(-i));
        }
      }
    case Float(f) =>
      ReadFloat(f);
    case Bool(b) =>
      assert "true"[0] == 't' && "false"[0] == 'f';
      assert ReadValue(PrintValue(v)) == Some(Literal(LBoolean(b)));
  }

  // --- Parts ---

  type PrintedProps = seq<(string, ValueText)>

  datatype Part =
    | NodePart(variable: string, labels: seq<string>, props: PrintedProps)
    | EdgePart(src: string, relType: string, props: PrintedProps, dst: string)

  function VariableOf(id: NodeId): string {
    "_" + NatToString(id)
  }

  lemma VariableReads(id: NodeId)
    ensures ReadName(VariableOf(id)) == Some(VariableOf(id))
  {
    NumberedVariable(id);
  }

  lemma VariablesDiffer(a: NodeId, b: NodeId)
    requires VariableOf(a) == VariableOf(b)
    ensures a == b
  {
    assert VariableOf(a)[1..] == NatToString(a) && VariableOf(b)[1..] == NatToString(b);
    NatToStringInjective(a, b);
  }

  // The order `sort` puts keys in.
  predicate KeysAscend(props: PrintedProps) {
    forall i, j :: 0 <= i < j < |props| ==> CompareStrings(props[i].0, props[j].0) == Less
  }

  predicate Has(entries: PrintedProps, key: string) {
    exists i :: 0 <= i < |entries| && entries[i].0 == key
  }

  // `entries` prints `props`: every key once, in ascending order, with its value.
  ghost predicate Prints(entries: PrintedProps, props: Props) {
    && KeysAscend(entries)
    && (forall k :: k in props ==> Has(entries, k))
    && (forall i :: 0 <= i < |entries| ==> entries[i].0 in props && entries[i].1 == PrintValue(props[entries[i].0]))
  }

  ghost predicate PrintsNode(part: Part, n: Node) {
    part.NodePart? && part.variable == VariableOf(n.id) && part.labels == n.labels && Prints(part.props, n.props)
  }

  ghost predicate PrintsEdge(part: Part, e: Edge) {
    && part.EdgePart? && part.src == VariableOf(e.src) && part.dst == VariableOf(e.dst)
    && part.relType == e.relType && Prints(part.props, e.props)
  }

  ghost function NodeIds(g: Graph): seq<NodeId> { SortedIds(g.nodes.Keys) }

  ghost function EdgeIds(g: Graph): seq<EdgeId> { SortedIds(g.edges.Keys) }

  lemma IdsAreLive(g: Graph)
    ensures forall i :: 0 <= i < |NodeIds(g)| ==> NodeIds(g)[i] in g.nodes
    ensures forall i :: 0 <= i < |EdgeIds(g)| ==> EdgeIds(g)[i] in g.edges
  {
    assert forall i :: 0 <= i < |NodeIds(g)| ==> NodeIds(g)[i] in NodeIds(g);
    assert forall i :: 0 <= i < |EdgeIds(g)| ==> EdgeIds(g)[i] in EdgeIds(g);
  }

  // Nodes in id order, then relationships in id order.
  ghost predicate ExportOf(g: Graph, parts: seq<Part>) {
    var (ns, es) := (NodeIds(g), EdgeIds(g));
    && (g.nodes == map[] ==> parts == [])
    && (g.nodes != map[] ==>
          && |parts| == |ns| + |es|
          && (forall i :: 0 <= i < |ns| ==> ns[i] in g.nodes && PrintsNode(parts[i], g.nodes[ns[i]]))
          && (forall i :: 0 <= i < |es| ==> es[i] in g.edges && PrintsEdge(parts[|ns| + i], g.edges[es[i]])))
  }

  // --- Reading parts back ---

  function ReadProps(props: PrintedProps): Option<seq<Entry>> {
    if props == [] then Some([])
    else
      var before, key, v := ReadProps(Init(props)), ReadName(Last(props).0), ReadValue(Last(props).1);
      if before.None? || key.None? || v.None? then None else Some(before.value + [Entry(Identifier(key.value), v.value)])
  }

  // A part without properties has no property map at all.
  function ReadMap(props: PrintedProps): Option<Option<seq<Entry>>> {
    if props == [] then Some(None)
    else
      var entries := ReadProps(props);
      if entries.None? then None else Some(Some(entries.value))
  }

  // Variables, labels, types and keys are read as identifiers.
  function ReadPart(part: Part): Option<CreateOp> {
    var props := ReadMap(part.props);
    if props.None? then None
    else
      match part
      case NodePart(v, labels, _) =>
        var (variable, names) := (ReadName(v), ReadNames(labels));
        if variable.None? || names.None? then None
        else Some(MakeNode(NodePattern(variable, names.value, props.value)))
      case EdgePart(src, relType, _, dst) =>
        var (from, name, to) := (ReadName(src), ReadName(relType), ReadName(dst));
        if from.None? || name.None? || to.None? then None
        else
          Some(MakePath(NodePattern(from, [], None),
                        [Element(RelPattern(None, [name.value], Outgoing, props.value), NodePattern(to, [], None))]))
  }

  // One unreadable part makes the statement unreadable.
  function ReadParts(parts: seq<Part>): Option<seq<CreateOp>> {
    if parts == [] then Some([])
    else
      var before, op := ReadParts(Init(parts)), ReadPart(Last(parts));
      if before.None? || op.None? then None else Some(before.value + [op.value])
  }

  // --- Exporting ---

  predicate IsLeast(m: nat, c: set<nat>) {
    m in c && forall x :: x in c ==> m <= x
  }

  // What is listed so far and what is left to list.
  ghost predicate Split(ids: set<nat>, r: seq<nat>, rest: set<nat>) {
    && rest <= ids && Lists(r, ids - rest)
    && forall x, y :: x in ids - rest && y in rest ==> x < y
  }

  lemma SplitStep(ids: set<nat>, r: seq<nat>, rest: set<nat>, m: nat)
    requires Split(ids, r, rest) && IsLeast(m, rest)
    ensures Split(ids, r + [m], rest - {m})
  {
    AppendLarger(r, ids - rest, m);
    assert ids - (rest - {m}) == (ids - rest) + {m};
  }

  lemma SplitEnds(ids: set<nat>, r: seq<nat>)
    ensures Split(ids, [], ids)
    ensures Split(ids, r, {}) ==> r == SortedIds(ids)
  {
    assert ids - {} == ids;
    if Split(ids, r, {}) {
      ListingIsUnique(r, SortedIds(ids), ids);
    }
  }

  lemma LeastExists(c: set<nat>)
    requires c != {}
    ensures exists m :: m in c && IsLeast(m, c)
  {
    assert IsLeast(Min(c), c);
  }

  // `ids.sort()`
  method SortedNumbers(ids: set<nat>) returns (r: seq<nat>)
    ensures r == SortedIds(ids)
  {
    hide Split, IsLeast, SortedIds;
    r := [];
    var rest := ids;
    SplitEnds(ids, r);
    while rest != {}
      invariant Split(ids, r, rest)
      decreases |rest|
    {
      LeastExists(rest);
      var m :| m in rest && IsLeast(m, rest);
      SplitStep(ids, r, rest, m);
      r := r + [m];
      rest := rest - {m};
    }
    SplitEnds(ids, r);
  }

  lemma {:induction false} LessIsTransitive(a: string, b: string, c: string)
    requires CompareStrings(a, b) == Less && CompareStrings(b, c) == Less
    ensures CompareStrings(a, c) == Less
  {
    if a != [] && b != [] && c != [] && a[0] == b[0] == c[0] {
      LessIsTransitive(a[1..], b[1..], c[1..]);
    }
  }

  lemma {:induction false} OneIsLess(a: string, b: string)
    ensures CompareStrings(a, b) == Less || CompareStrings(b, a) == Less || a == b
  {
    if a != [] && b != [] && a[0] == b[0] {
      OneIsLess(a[1..], b[1..]);
      assert a == [a[0]] + a[1..] && b == [b[0]] + b[1..];
    }
  }

  predicate IsLeastKey(m: string, keys: set<string>) {
    m in keys && forall k :: k in keys && k != m ==> CompareStrings(m, k) == Less
  }

  lemma {:induction false} LeastKeyExists(keys: set<string>)
    requires keys != {}
    ensures exists m :: m in keys && IsLeastKey(m, keys)
    decreases |keys|
  {
    hide CompareStrings;
    var m :| m in keys;
    var others := keys - {m};
    if others == {} {
      assert keys == {m} && IsLeastKey(m, keys);
    } else {
      LeastKeyExists(others);
      var n :| n in others && IsLeastKey(n, others);
      OneIsLess(m, n);
      if CompareStrings(m, n) == Less {
        forall k | k in others ensures CompareStrings(m, k) == Less {
          if k != n { LessIsTransitive(m, n, k); }
        }
        assert IsLeastKey(m, keys);
      } else {
        assert IsLeastKey(n, keys);
      }
    }
  }

  // All keys but those of `rest` are printed, and they come before these.
  ghost predicate PrintsBut(entries: PrintedProps, props: Props, rest: set<string>) {
    && rest <= props.Keys && Prints(entries, props - rest)
    && forall i, k :: 0 <= i < |entries| && k in rest ==> CompareStrings(entries[i].0, k) == Less
  }

  lemma PrintsStep(entries: PrintedProps, props: Props, rest: set<string>, m: string)
    requires PrintsBut(entries, props, rest) && IsLeastKey(m, rest)
    ensures PrintsBut(entries + [(m, PrintValue(props[m]))], props, rest - {m})
  {
    hide PrintValue, CompareStrings;
    var more := entries + [(m, PrintValue(props[m]))];
    forall k | k in props - (rest - {m}) ensures Has(more, k) {
      if k == m {
        assert more[|entries|].0 == m;
      } else {
        assert k in props - rest;
        var i :| 0 <= i < |entries| && entries[i].0 == k;
        assert more[i].0 == k;
      }
    }
  }

  lemma PrintsEnds(entries: PrintedProps, props: Props)
    ensures PrintsBut([], props, props.Keys)
    ensures PrintsBut(entries, props, {}) ==> Prints(entries, props)
  {
    assert props - {} == props;
  }

  method FormatProperties(props: Props) returns (entries: PrintedProps)
    ensures Prints(entries, props)
  {
    hide PrintValue, PrintsBut, IsLeastKey;
    entries := [];
    var rest := props.Keys;
    PrintsEnds(entries, props);
    while rest != {}
      invariant rest <= props.Keys && PrintsBut(entries, props, rest)
      decreases |rest|
    {
      LeastKeyExists(rest);
      var m :| m in rest && IsLeastKey(m, rest);
      PrintsStep(entries, props, rest, m);
      entries := entries + [(m, PrintValue(props[m]))];
      rest := rest - {m};
    }
    PrintsEnds(entries, props);
  }

  method ExportNodes(nodes: map<NodeId, Node>, ids: seq<NodeId>) returns (parts: seq<Part>)
    requires forall i :: 0 <= i < |ids| ==> ids[i] in nodes && nodes[ids[i]].id == ids[i]
    ensures |parts| == |ids| && forall i :: 0 <= i < |ids| ==> PrintsNode(parts[i], nodes[ids[i]])
  {
    hide Prints;
    parts := [];
    for i := 0 to |ids|
      invariant |parts| == i && forall k :: 0 <= k < i ==> PrintsNode(parts[k], nodes[ids[k]])
    {
      var props := FormatProperties(nodes[ids[i]].props);
      parts := parts + [NodePart(VariableOf(ids[i]), nodes[ids[i]].labels, props)];
    }
  }

  method ExportEdges(edges: map<EdgeId, Edge>, ids: seq<EdgeId>) returns (parts: seq<Part>)
    requires forall i :: 0 <= i < |ids| ==> ids[i] in edges
    ensures |parts| == |ids| && forall i :: 0 <= i < |ids| ==> PrintsEdge(parts[i], edges[ids[i]])
  {
    hide Prints;
    parts := [];
    for i := 0 to |ids|
      invariant |parts| == i && forall k :: 0 <= k < i ==> PrintsEdge(parts[k], edges[ids[k]])
    {
      var edge := edges[ids[i]];
      var props := FormatProperties(edge.props);
      parts := parts + [EdgePart(VariableOf(edge.src), edge.relType, props, VariableOf(edge.dst))];
    }
  }

  method ExportCypher(storage: MemoryStorage) returns (parts: seq<Part>)
    requires storage.Valid()
    ensures ExportOf(storage.View(), parts)
  {
    hide *;
    ghost var g := storage.View();
    StorageLists(storage);
    var nodeIds := SortedNumbers(storage.nodes.Keys);
    if nodeIds == [] {
      return [];
    }
    var nodeParts := ExportNodes(storage.nodes, nodeIds);
    var edgeIds := SortedNumbers(storage.edges.Keys);
    var edgeParts := ExportEdges(storage.edges, edgeIds);
    parts := nodeParts + edgeParts;
    PartsTogether(g, nodeParts, edgeParts);
  }

  lemma StorageLists(storage: MemoryStorage)
    requires storage.Valid()
    ensures storage.View().nodes == storage.nodes && storage.View().edges == storage.edges
    ensures SortedIds(storage.nodes.Keys) == NodeIds(storage.View()) && SortedIds(storage.edges.Keys) == EdgeIds(storage.View())
    ensures NodeIds(storage.View()) == [] <==> storage.nodes == map[]
    ensures storage.nodes == map[] ==> ExportOf(storage.View(), [])
    ensures forall i :: 0 <= i < |NodeIds(storage.View())| ==> NodeIds(storage.View())[i] in storage.nodes
    ensures forall i :: 0 <= i < |EdgeIds(storage.View())| ==> EdgeIds(storage.View())[i] in storage.edges
    ensures forall n :: n in storage.nodes ==> storage.nodes[n].id == n
  {
    IdsAreLive(storage.View());
    NoNodesNoParts(storage.View());
  }

  lemma NoNodesNoParts(g: Graph)
    ensures NodeIds(g) == [] <==> g.nodes == map[]
    ensures g.nodes == map[] ==> ExportOf(g, [])
  {
    if NodeIds(g) == [] {
      assert g.nodes.Keys == {};
    }
  }

  lemma PartsTogether(g: Graph, nodeParts: seq<Part>, edgeParts: seq<Part>)
    requires g.nodes != map[] && |nodeParts| == |NodeIds(g)| && |edgeParts| == |EdgeIds(g)|
    requires forall i :: 0 <= i < |NodeIds(g)| ==> NodeIds(g)[i] in g.nodes && PrintsNode(nodeParts[i], g.nodes[NodeIds(g)[i]])
    requires forall i :: 0 <= i < |EdgeIds(g)| ==> EdgeIds(g)[i] in g.edges && PrintsEdge(edgeParts[i], g.edges[EdgeIds(g)[i]])
    ensures ExportOf(g, nodeParts + edgeParts)
  {
    hide PrintsNode, PrintsEdge, NodeIds, EdgeIds;
  }

  // --- What replay builds ---

  ghost function Rank(g: Graph, id: NodeId): (r: nat)
    requires id in g.nodes
    ensures r < |NodeIds(g)| && NodeIds(g)[r] == id
  {
    assert id in NodeIds(g);
    var r :| 0 <= r < |NodeIds(g)| && NodeIds(g)[r] == id;
    r
  }

  ghost function NodeAt(g: Graph, i: nat): Node
    requires i < |NodeIds(g)|
  {
    IdsAreLive(g);
    var n := g.nodes[NodeIds(g)[i]];
    Node(i, n.labels, n.props)
  }

  ghost function EdgeAt(g: Graph, i: nat): Edge
    requires GraphOk(g) && i < |EdgeIds(g)|
  {
    IdsAreLive(g);
    var e := g.edges[EdgeIds(g)[i]];
    Edge(i, e.relType, Rank(g, e.src), Rank(g, e.dst), e.props)
  }

  // The first `i` nodes and `j` relationships, renumbered by rank.
  ghost function Replayed(g: Graph, i: nat, j: nat): Graph
    requires GraphOk(g) && i <= |NodeIds(g)| && j <= |EdgeIds(g)|
  {
    Graph(map k | 0 <= k < i :: NodeAt(g, k), map k | 0 <= k < j :: EdgeAt(g, k), i, j)
  }

  ghost function Renumbered(g: Graph): Graph
    requires GraphOk(g)
  {
    Replayed(g, |NodeIds(g)|, |EdgeIds(g)|)
  }

  // The row after `i` nodes: each variable bound to its node.
  ghost function RowAfter(g: Graph, i: nat): Record
    requires i <= |NodeIds(g)|
  {
    if i == 0 then map[] else RowAfter(g, i - 1)[VariableOf(NodeIds(g)[i - 1]) := NodeVal(NodeAt(g, i - 1))]
  }

  lemma IdsIncrease(g: Graph, i: nat, j: nat)
    requires i < j
    ensures j < |NodeIds(g)| ==> NodeIds(g)[i] < NodeIds(g)[j]
    ensures j < |EdgeIds(g)| ==> EdgeIds(g)[i] < EdgeIds(g)[j]
  {
  }

  lemma {:induction false} RowBinds(g: Graph, i: nat, r: nat)
    requires r < i <= |NodeIds(g)|
    ensures VariableOf(NodeIds(g)[r]) in RowAfter(g, i)
    ensures RowAfter(g, i)[VariableOf(NodeIds(g)[r])] == NodeVal(NodeAt(g, r))
    decreases i
  {
    hide NodeIds, NodeAt, VariableOf;
    if r < i - 1 {
      RowBinds(g, i - 1, r);
      if VariableOf(NodeIds(g)[r]) == VariableOf(NodeIds(g)[i - 1]) {
        VariablesDiffer(NodeIds(g)[r], NodeIds(g)[i - 1]);
        IdsIncrease(g, r, i - 1);
      }
    }
  }

  // `f` and `e` map `g` onto `h` in order, keeping labels, types, properties
  // and ends.
  ghost predicate IsomorphicBy(g: Graph, h: Graph, f: map<NodeId, NodeId>, e: map<EdgeId, EdgeId>) {
    && f.Keys == g.nodes.Keys && f.Values == h.nodes.Keys && Ascends(f) && NodesKept(g, h, f)
    && e.Keys == g.edges.Keys && e.Values == h.edges.Keys && Ascends(e) && EdgesKept(g, h, f, e)
  }

  ghost predicate Ascends(f: map<nat, nat>) {
    forall a, b :: a in f && b in f && a < b ==> f[a] < f[b]
  }

  ghost predicate NodesKept(g: Graph, h: Graph, f: map<NodeId, NodeId>) {
    forall n :: n in g.nodes ==> n in f && f[n] in h.nodes && h.nodes[f[n]] == g.nodes[n].(id := f[n])
  }

  ghost predicate EdgesKept(g: Graph, h: Graph, f: map<NodeId, NodeId>, e: map<EdgeId, EdgeId>) {
    forall x :: x in g.edges ==> x in e && e[x] in h.edges && SameEdge(g.edges[x], h.edges[e[x]], f, e[x])
  }

  predicate SameEdge(a: Edge, b: Edge, f: map<NodeId, NodeId>, id: EdgeId) {
    a.src in f && a.dst in f && b == a.(id := id, src := f[a.src], dst := f[a.dst])
  }

  ghost function EdgeRank(g: Graph, id: EdgeId): (r: nat)
    requires id in g.edges
    ensures r < |EdgeIds(g)| && EdgeIds(g)[r] == id
  {
    assert id in EdgeIds(g);
    var r :| 0 <= r < |EdgeIds(g)| && EdgeIds(g)[r] == id;
    r
  }

  ghost function NodeRanks(g: Graph): map<NodeId, NodeId> {
    map n | n in g.nodes :: Rank(g, n)
  }

  ghost function EdgeRanks(g: Graph): map<EdgeId, EdgeId> {
    map x | x in g.edges :: EdgeRank(g, x)
  }

  lemma RankOfId(g: Graph, i: nat)
    ensures i < |NodeIds(g)| ==> NodeIds(g)[i] in g.nodes && Rank(g, NodeIds(g)[i]) == i
    ensures i < |EdgeIds(g)| ==> EdgeIds(g)[i] in g.edges && EdgeRank(g, EdgeIds(g)[i]) == i
  {
    IdsAreLive(g);
    forall j: nat | i < j { IdsIncrease(g, i, j); }
    forall j: nat | j < i { IdsIncrease(g, j, i); }
  }

  lemma RanksAreOnto(g: Graph)
    requires GraphOk(g)
    ensures NodeRanks(g).Values == Renumbered(g).nodes.Keys && EdgeRanks(g).Values == Renumbered(g).edges.Keys
  {
    hide NodeIds, EdgeIds, Rank, EdgeRank;
    forall r | r in Renumbered(g).nodes ensures r in NodeRanks(g).Values {
      RankOfId(g, r);
      assert NodeRanks(g)[NodeIds(g)[r]] == r;
    }
    forall r | r in Renumbered(g).edges ensures r in EdgeRanks(g).Values {
      RankOfId(g, r);
      assert EdgeRanks(g)[EdgeIds(g)[r]] == r;
    }
  }

  lemma RanksAscend(g: Graph)
    ensures Ascends(NodeRanks(g)) && Ascends(EdgeRanks(g))
  {
    hide NodeIds, EdgeIds, Rank, EdgeRank;
    forall a, b | a in g.nodes && b in g.nodes && a < b ensures Rank(g, a) < Rank(g, b) {
      if Rank(g, b) < Rank(g, a) { IdsIncrease(g, Rank(g, b), Rank(g, a)); }
    }
    forall a, b | a in g.edges && b in g.edges && a < b ensures EdgeRank(g, a) < EdgeRank(g, b) {
      if EdgeRank(g, b) < EdgeRank(g, a) { IdsIncrease(g, EdgeRank(g, b), EdgeRank(g, a)); }
    }
  }

  lemma RanksKeepNodes(g: Graph)
    requires GraphOk(g)
    ensures NodesKept(g, Renumbered(g), NodeRanks(g))
  {
    hide NodeIds, EdgeIds, Rank;
  }

  lemma RanksKeepEdges(g: Graph)
    requires GraphOk(g)
    ensures EdgesKept(g, Renumbered(g), NodeRanks(g), EdgeRanks(g))
  {
    hide NodeIds, EdgeIds, Rank, EdgeRank;
  }

  // Renumbering by rank is an isomorphism that keeps the order of ids.
  lemma RenumberedIsIsomorphic(g: Graph)
    requires GraphOk(g)
    ensures IsomorphicBy(g, Renumbered(g), NodeRanks(g), EdgeRanks(g))
  {
    hide Ascends, NodesKept, EdgesKept, Renumbered, NodeRanks, EdgeRanks, GraphOk;
    RanksAreTotal(g);
    RanksAreOnto(g);
    RanksAscend(g);
    RanksKeepNodes(g);
    RanksKeepEdges(g);
  }

  lemma RanksAreTotal(g: Graph)
    ensures NodeRanks(g).Keys == g.nodes.Keys && EdgeRanks(g).Keys == g.edges.Keys
  {
    hide Rank, EdgeRank;
  }
}
