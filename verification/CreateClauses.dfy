// CREATE: the create-chain arm of `execute_to_records`, creation of one node
// per row, and creation of one path per row (which chain MERGE shares).

module CreateClauses {
  import opened GraphTypes
  import opened Sequences
  import opened AbstractGraph
  import opened MemoryStorages
  import opened ConstraintRules
  import opened ConstrainedStorages
  import opened Expressions
  import opened Planner

  // --- Inline properties against a row ---

  // Entries in order, a later entry for a key replacing an earlier one; None
  // for an error, which null and composite values are.
  function Resolved(inline: InlineProps, rec: Record, ctx: Context, acc: Props): Option<Props>
    decreases |inline|
  {
    if inline == [] then Some(acc)
    else
      var v := Eval(inline[0].1, rec, ctx);
      if v.None? || AsScalar(v.value).None? then None
      else Resolved(inline[1..], rec, ctx, acc[inline[0].0 := AsScalar(v.value).value])
  }

  function PatternProps(props: Option<seq<Entry>>, rec: Record, ctx: Context): Option<Props> {
    Resolved(Inline(EntriesOf(props)), rec, ctx, map[])
  }

  // An entry under a plain key, with a value a property can have.
  predicate IsStorable(v: Option<Value>) {
    v.Some? && (v.value.StringVal? || v.value.Integer? || v.value.FloatVal? || v.value.Boolean?)
  }

  predicate NamesKey(entries: seq<Entry>, i: nat, key: string)
    requires i < |entries|
  {
    entries[i].key == Identifier(key)
  }

  predicate NamesLast(entries: seq<Entry>, i: nat, key: string)
    requires i < |entries|
  {
    NamesKey(entries, i, key) && forall j :: i < j < |entries| ==> !NamesKey(entries, j, key)
  }

  // Every entry under a plain key can be stored, and each key has the value of
  // its last entry; entries under computed keys do not count.
  ghost predicate Resolves(entries: seq<Entry>, rec: Record, ctx: Context, props: Props) {
    && (forall i :: 0 <= i < |entries| && entries[i].key.Identifier? ==> IsStorable(Eval(entries[i].value, rec, ctx)))
    && (forall key :: key in props ==> exists i :: 0 <= i < |entries| && NamesKey(entries, i, key))
    && (forall i, key :: 0 <= i < |entries| && NamesLast(entries, i, key) ==>
          key in props && Eval(entries[i].value, rec, ctx) == Some(ToValue(props[key])))
  }

  lemma {:induction false} ResolvedSnoc(inline: InlineProps, key: string, e: Expr, rec: Record, ctx: Context, acc: Props)
    ensures Resolved(inline + [(key, e)], rec, ctx, acc) ==
            var before, v := Resolved(inline, rec, ctx, acc), Eval(e, rec, ctx);
            if before.None? || v.None? || AsScalar(v.value).None? then None else Some(before.value[key := AsScalar(v.value).value])
    decreases |inline|
  {
    hide Eval;
    if inline == [] {
      assert inline + [(key, e)] == [(key, e)] && [(key, e)][1..] == [];
    } else {
      assert (inline + [(key, e)])[1..] == inline[1..] + [(key, e)];
      var v := Eval(inline[0].1, rec, ctx);
      if v.Some? && AsScalar(v.value).Some? {
        ResolvedSnoc(inline[1..], key, e, rec, ctx, acc[inline[0].0 := AsScalar(v.value).value]);
      }
    }
  }

  lemma {:induction false} ResolvedMeans(entries: seq<Entry>, rec: Record, ctx: Context)
    ensures var props := Resolved(Inline(entries), rec, ctx, map[]);
            && (props.Some? <==> forall i :: 0 <= i < |entries| && entries[i].key.Identifier? ==> IsStorable(Eval(entries[i].value, rec, ctx)))
            && (props.Some? ==> Resolves(entries, rec, ctx, props.value))
    decreases |entries|
  {
    if entries != [] {
      hide Eval, Resolved, Inline, Resolves;
      var init, l := Init(entries), Last(entries);
      assert entries == init + [l];
      ResolvedMeans(init, rec, ctx);
      InlineSnoc(init, l);
      if l.key.Identifier? {
        ResolvedSnoc(Inline(init), l.key.name, l.value, rec, ctx, map[]);
      }
      var before, after := Resolved(Inline(init), rec, ctx, map[]), Resolved(Inline(entries), rec, ctx, map[]);
      assert forall i :: 0 <= i < |init| ==> init[i] == entries[i];
      if after.Some? {
        OneMoreEntry(init, l, rec, ctx, before.value, after.value);
      }
    }
  }

  lemma OneMoreEntry(init: seq<Entry>, l: Entry, rec: Record, ctx: Context, before: Props, after: Props)
    requires Resolves(init, rec, ctx, before)
    requires if l.key.Identifier?
             then IsStorable(Eval(l.value, rec, ctx)) && after == before[l.key.name := AsScalar(Eval(l.value, rec, ctx).value).value]
             else after == before
    ensures Resolves(init + [l], rec, ctx, after)
  {
    hide Eval;
    var entries := init + [l];
    assert forall i :: 0 <= i < |init| ==> init[i] == entries[i];
    forall key | key in after ensures exists i :: 0 <= i < |entries| && NamesKey(entries, i, key) {
      if key in before {
        var i :| 0 <= i < |init| && NamesKey(init, i, key);
        assert NamesKey(entries, i, key);
      } else {
        assert NamesKey(entries, |init|, key);
      }
    }
    forall i, key | 0 <= i < |entries| && NamesLast(entries, i, key)
      ensures key in after && Eval(entries[i].value, rec, ctx) == Some(ToValue(after[key]))
    {
      if i < |init| {
        assert !NamesKey(entries, |init|, key);
        assert forall j :: i < j < |init| ==> (NamesKey(init, j, key) <==> NamesKey(entries, j, key));
        assert NamesLast(init, i, key);
      }
    }
  }

  method ResolveProperties(props: Option<seq<Entry>>, rec: Record, ctx: Context) returns (r: Option<Props>)
    ensures r == PatternProps(props, rec, ctx)
    ensures r.None? <==> exists i :: 0 <= i < |EntriesOf(props)| && EntriesOf(props)[i].key.Identifier?
                                 && !IsStorable(Eval(EntriesOf(props)[i].value, rec, ctx))
    ensures r.Some? ==> Resolves(EntriesOf(props), rec, ctx, r.value)
  {
    ResolvedMeans(EntriesOf(props), rec, ctx);
    hide Resolves, Eval, IsStorable;
    var properties: Props := map[];
    var entries := EntriesOf(props);
    assert entries[0..] == entries;
    for j := 0 to |entries|
      invariant Resolved(Inline(entries[j..]), rec, ctx, properties) == PatternProps(props, rec, ctx)
    {
      assert entries[j..][0] == entries[j] && entries[j..][1..] == entries[j + 1..];
      if entries[j].key.Dynamic? {
        continue;
      }
      ghost var inline := Inline(entries[j..]);
      assert inline[1..] == Inline(entries[j + 1..]);
      var v := Eval(entries[j].value, rec, ctx);
      if v.None? || AsScalar(v.value).None? {
        return None;
      }
      properties := properties[entries[j].key.name := AsScalar(v.value).value];
    }
    r := Some(properties);
  }

  // --- One node ---

  predicate BoundNode(rec: Record, variable: Option<string>) {
    variable.Some? && variable.value in rec && rec[variable.value].NodeVal?
  }

  function BindIf(rec: Record, variable: Option<string>, v: Value): Record {
    if variable.Some? then rec[variable.value := v] else rec
  }

  // CREATE of a node pattern: always a new node, once every check passes.
  ghost function NodeCreated(g: Graph, rules: Rules, rec: Record, np: NodePattern, ctx: Context): (Graph, Option<Record>) {
    var props := PatternProps(np.props, rec, ctx);
    if props.None? || !Accepts(rules, g.nodes, np.labels, props.value) then (g, None)
    else
      var h := AddNode(g, np.labels, props.value);
      (h, Some(BindIf(rec, np.variable, NodeVal(h.nodes[g.nextNode]))))
  }

  // --- One path ---

  // Where a chain stands: the graph so far and, unless it failed, the node
  // reached and the row.
  datatype Progress = Progress(g: Graph, at: Option<(NodeId, Record)>)

  // A node of a path: the bound one if the variable is bound, else a new one,
  // without checks.
  function NodePlaced(g: Graph, rec: Record, np: NodePattern, ctx: Context): Progress {
    if BoundNode(rec, np.variable) then Progress(g, Some((rec[np.variable.value].node.id, rec)))
    else
      var props := PatternProps(np.props, rec, ctx);
      if props.None? then Progress(g, None)
      else
        var h := AddNode(g, np.labels, props.value);
        Progress(h, Some((g.nextNode, BindIf(rec, np.variable, NodeVal(h.nodes[g.nextNode])))))
  }

  function CreatedType(rel: RelPattern): string {
    if rel.relTypes == [] then "" else rel.relTypes[0]
  }

  function ElementPlaced(g: Graph, prev: NodeId, rec: Record, el: Element, ctx: Context): Progress {
    var p := NodePlaced(g, rec, el.node, ctx);
    if p.at.None? then p
    else
      var (dst, rec1) := p.at.value;
      var props := PatternProps(el.rel.props, rec1, ctx);
      if props.None? then Progress(p.g, None)
      else
        var (src, tgt) := if el.rel.dir.Incoming? then (dst, prev) else (prev, dst);
        var (h, e) := AddEdge(p.g, CreatedType(el.rel), src, tgt, props.value);
        if e.Err? then Progress(h, None)
        else Progress(h, Some((dst, BindIf(rec1, el.rel.variable, RelVal(h.edges[e.value])))))
  }

  function ChainPlaced(g: Graph, rec: Record, start: NodePattern, elements: seq<Element>, ctx: Context): Progress {
    if elements == [] then NodePlaced(g, rec, start, ctx)
    else
      var p := ChainPlaced(g, rec, start, Init(elements), ctx);
      if p.at.None? then p else ElementPlaced(p.g, p.at.value.0, p.at.value.1, Last(elements), ctx)
  }

  lemma {:induction false} ChainStops(g: Graph, rec: Record, start: NodePattern, elements: seq<Element>, ctx: Context, i: nat)
    requires i <= |elements| && ChainPlaced(g, rec, start, elements[..i], ctx).at.None?
    ensures ChainPlaced(g, rec, start, elements, ctx) == ChainPlaced(g, rec, start, elements[..i], ctx)
    decreases |elements| - i
  {
    hide NodePlaced, ElementPlaced;
    if i == |elements| {
      assert elements[..i] == elements;
    } else {
      assert Init(elements[..i + 1]) == elements[..i];
      ChainStops(g, rec, start, elements, ctx, i + 1);
    }
  }

  method PlaceNode(storage: MemoryStorage, rec: Record, np: NodePattern, ctx: Context)
    returns (r: Option<(NodeId, Record)>)
    requires storage.Valid()
    modifies storage
    ensures storage.Valid()
    ensures Progress(storage.View(), r) == NodePlaced(old(storage.View()), rec, np, ctx)
  {
    hide MemoryStorage.Valid, PatternProps;
    if BoundNode(rec, np.variable) {
      return Some((rec[np.variable.value].node.id, rec));
    }
    var props := ResolveProperties(np.props, rec, ctx);
    if props.None? {
      return None;
    }
    var id := storage.CreateNode(np.labels, props.value);
    r := Some((id, BindIf(rec, np.variable, NodeVal(storage.nodes[id]))));
  }

  method PlaceElement(storage: MemoryStorage, prev: NodeId, rec: Record, el: Element, ctx: Context)
    returns (r: Option<(NodeId, Record)>)
    requires storage.Valid()
    modifies storage
    ensures storage.Valid()
    ensures Progress(storage.View(), r) == ElementPlaced(old(storage.View()), prev, rec, el, ctx)
  {
    hide MemoryStorage.Valid, PatternProps, NodePlaced;
    var placed := PlaceNode(storage, rec, el.node, ctx);
    if placed.None? {
      return None;
    }
    var (dst, rec1) := placed.value;
    var props := ResolveProperties(el.rel.props, rec1, ctx);
    if props.None? {
      return None;
    }
    var (src, tgt) := if el.rel.dir.Incoming? then (dst, prev) else (prev, dst);
    var e := storage.CreateEdge(CreatedType(el.rel), src, tgt, props.value);
    if e.Err? {
      return None;
    }
    r := Some((dst, BindIf(rec1, el.rel.variable, RelVal(storage.edges[e.value]))));
  }

  method PlaceChain(storage: MemoryStorage, rec: Record, start: NodePattern, elements: seq<Element>, ctx: Context)
    returns (r: Option<(NodeId, Record)>)
    requires storage.Valid()
    modifies storage
    ensures storage.Valid()
    ensures Progress(storage.View(), r) == ChainPlaced(old(storage.View()), rec, start, elements, ctx)
  {
    hide MemoryStorage.Valid, NodePlaced, ElementPlaced;
    r := PlaceNode(storage, rec, start, ctx);
    if r.None? {
      ChainStops(old(storage.View()), rec, start, elements, ctx, 0);
      return;
    }
    for i := 0 to |elements|
      invariant storage.Valid() && r.Some?
      invariant Progress(storage.View(), r) == ChainPlaced(old(storage.View()), rec, start, elements[..i], ctx)
    {
      assert Init(elements[..i + 1]) == elements[..i] && Last(elements[..i + 1]) == elements[i];
      r := PlaceElement(storage, r.value.0, r.value.1, elements[i], ctx);
      if r.None? {
        ChainStops(old(storage.View()), rec, start, elements, ctx, i + 1);
        return;
      }
    }
    assert elements[..|elements|] == elements;
  }

  // --- Rows and clauses ---

  datatype CreateOp = MakeNode(np: NodePattern) | MakePath(start: NodePattern, elements: seq<Element>)

  ghost function RowCreated(g: Graph, rules: Rules, rec: Record, op: CreateOp, ctx: Context): (Graph, Option<Record>) {
    match op
    case MakeNode(np) => NodeCreated(g, rules, rec, np, ctx)
    case MakePath(start, elements) =>
      var p := ChainPlaced(g, rec, start, elements, ctx);
      (p.g, if p.at.None? then None else Some(p.at.value.1))
  }

  // One operation over all rows; the first failure ends the query, with what
  // was created before it left in place.
  ghost function RowsCreated(g: Graph, rules: Rules, rows: seq<Record>, op: CreateOp, ctx: Context): (Graph, Option<seq<Record>>) {
    if rows == [] then (g, Some([]))
    else
      var (h, done) := RowsCreated(g, rules, Init(rows), op, ctx);
      if done.None? then (h, None)
      else
        var (k, rec) := RowCreated(h, rules, Last(rows), op, ctx);
        (k, if rec.None? then None else Some(done.value + [rec.value]))
  }

  // No input rows count as one empty row.
  function BaseRows(rows: seq<Record>): seq<Record> {
    if rows == [] then [map[]] else rows
  }

  ghost function AllCreated(g: Graph, rules: Rules, ops: seq<CreateOp>, rows: seq<Record>, ctx: Context): (Graph, Option<seq<Record>>) {
    if ops == [] then (g, Some(rows))
    else
      var (h, done) := AllCreated(g, rules, Init(ops), rows, ctx);
      if done.None? then (h, None) else RowsCreated(h, rules, BaseRows(done.value), Last(ops), ctx)
  }

  lemma {:induction false} RowsStop(g: Graph, rules: Rules, rows: seq<Record>, op: CreateOp, ctx: Context, i: nat)
    requires i <= |rows| && RowsCreated(g, rules, rows[..i], op, ctx).1.None?
    ensures RowsCreated(g, rules, rows, op, ctx) == RowsCreated(g, rules, rows[..i], op, ctx)
    decreases |rows| - i
  {
    hide RowCreated;
    if i == |rows| {
      assert rows[..i] == rows;
    } else {
      assert Init(rows[..i + 1]) == rows[..i];
      RowsStop(g, rules, rows, op, ctx, i + 1);
    }
  }

  lemma {:induction false} OpsStop(g: Graph, rules: Rules, ops: seq<CreateOp>, rows: seq<Record>, ctx: Context, i: nat)
    requires i <= |ops| && AllCreated(g, rules, ops[..i], rows, ctx).1.None?
    ensures AllCreated(g, rules, ops, rows, ctx) == AllCreated(g, rules, ops[..i], rows, ctx)
    decreases |ops| - i
  {
    hide RowsCreated;
    if i == |ops| {
      assert ops[..i] == ops;
    } else {
      assert Init(ops[..i + 1]) == ops[..i];
      OpsStop(g, rules, ops, rows, ctx, i + 1);
    }
  }

  method CreateRow(cs: ConstrainedStorage, rec: Record, op: CreateOp, ctx: Context) returns (r: Option<Record>)
    requires cs.data.Valid()
    modifies cs.data
    ensures cs.data.Valid()
    ensures (cs.data.View(), r) == RowCreated(old(cs.data.View()), cs.RulesNow(), rec, op, ctx)
  {
    hide MemoryStorage.Valid, PatternProps, ChainPlaced, Accepts;
    match op
    case MakeNode(np) =>
      var props := ResolveProperties(np.props, rec, ctx);
      if props.None? {
        return None;
      }
      var created := cs.CreateNode(np.labels, props.value);
      if created.Err? {
        return None;
      }
      r := Some(BindIf(rec, np.variable, NodeVal(cs.data.nodes[created.value])));
    case MakePath(start, elements) =>
      var placed := PlaceChain(cs.data, rec, start, elements, ctx);
      ghost var p := ChainPlaced(old(cs.data.View()), rec, start, elements, ctx);
      assert p.at == placed;
      r := if placed.None? then None else Some(placed.value.1);
  }

  method CreateFromRecords(cs: ConstrainedStorage, inputRows: seq<Record>, op: CreateOp, ctx: Context)
    returns (r: Option<seq<Record>>)
    requires cs.data.Valid()
    modifies cs.data
    ensures cs.data.Valid()
    ensures (cs.data.View(), r) == RowsCreated(old(cs.data.View()), cs.RulesNow(), BaseRows(inputRows), op, ctx)
  {
    hide MemoryStorage.Valid, RowCreated;
    var rows := BaseRows(inputRows);
    var result: seq<Record> := [];
    for i := 0 to |rows|
      invariant cs.data.Valid()
      invariant (cs.data.View(), Some(result)) == RowsCreated(old(cs.data.View()), cs.RulesNow(), rows[..i], op, ctx)
    {
      assert Init(rows[..i + 1]) == rows[..i] && Last(rows[..i + 1]) == rows[i];
      var rec := CreateRow(cs, rows[i], op, ctx);
      if rec.None? {
        RowsStop(old(cs.data.View()), cs.RulesNow(), rows, op, ctx, i + 1);
        return None;
      }
      result := result + [rec.value];
    }
    assert rows[..|rows|] == rows;
    r := Some(result);
  }

  // The operations of one CREATE clause, in order.
  method ExecuteCreate(cs: ConstrainedStorage, ops: seq<CreateOp>, inputRows: seq<Record>, ctx: Context)
    returns (r: Option<seq<Record>>)
    requires cs.data.Valid()
    modifies cs.data
    ensures cs.data.Valid()
    ensures (cs.data.View(), r) == AllCreated(old(cs.data.View()), cs.RulesNow(), ops, inputRows, ctx)
  {
    hide MemoryStorage.Valid, RowsCreated;
    r := Some(inputRows);
    for i := 0 to |ops|
      invariant cs.data.Valid() && r.Some?
      invariant (cs.data.View(), r) == AllCreated(old(cs.data.View()), cs.RulesNow(), ops[..i], inputRows, ctx)
    {
      assert Init(ops[..i + 1]) == ops[..i] && Last(ops[..i + 1]) == ops[i];
      r := CreateFromRecords(cs, r.value, ops[i], ctx);
      if r.None? {
        OpsStop(old(cs.data.View()), cs.RulesNow(), ops, inputRows, ctx, i + 1);
        return;
      }
    }
    assert ops[..|ops|] == ops;
  }
}
