// Replaying an export: its parts, read back and created in order in an empty
// graph, give the exported graph renumbered by rank.

module ExportReplay {
  import opened GraphTypes
  import opened Sequences
  import opened AbstractGraph
  import opened ConstraintRules
  import opened Expressions
  import opened Planner
  import opened CreateClauses
  import opened Identifiers
  import opened Export

  // --- Properties ---

  // Values and keys that are read.
  predicate ReadableProps(props: Props) {
    forall k :: k in props ==> Readable(props[k]) && IsIdentifier(k)
  }

  // Values that can be stored again once they are read.
  predicate StorableProps(props: Props) {
    forall k :: k in props ==> Storable(props[k])
  }

  lemma {:induction false} ReadPropsIs(entries: PrintedProps)
    ensures ReadProps(entries).Some? <==>
              forall i :: 0 <= i < |entries| ==> ReadValue(entries[i].1).Some? && IsIdentifier(entries[i].0)
    ensures ReadProps(entries).Some? ==> |ReadProps(entries).value| == |entries|
    ensures ReadProps(entries).Some? ==> forall i :: 0 <= i < |entries| ==>
              ReadProps(entries).value[i] == Entry(Identifier(entries[i].0), ReadValue(entries[i].1).value)
  {
    hide ReadValue, IsIdentifier;
    if entries != [] {
      ReadPropsIs(Init(entries));
    }
  }

  // The properties named by the first `k` entries.
  ghost function Named(entries: PrintedProps, props: Props, k: nat): Props
    requires k <= |entries|
  {
    map key | key in props && Has(entries[..k], key) :: props[key]
  }

  lemma NamedStep(entries: PrintedProps, props: Props, k: nat)
    requires k < |entries| && entries[k].0 in props
    ensures Named(entries, props, k + 1) == Named(entries, props, k)[entries[k].0 := props[entries[k].0]]
  {
    var (a, b) := (entries[..k], entries[..k + 1]);
    assert b == a + [entries[k]];
    forall key ensures Has(b, key) <==> Has(a, key) || key == entries[k].0 {
      if Has(a, key) {
        var i :| 0 <= i < |a| && a[i].0 == key;
        assert b[i].0 == key;
      }
      if key == entries[k].0 {
        assert b[k].0 == key;
      }
      if i :| 0 <= i < |b| && b[i].0 == key {
        assert i < k ==> a[i].0 == key;
      }
    }
  }

  // Entries of a read map, each with the value it was printed from.
  ghost predicate ReadFrom(es: seq<Entry>, entries: PrintedProps, props: Props) {
    && |es| == |entries|
    && forall i :: 0 <= i < |es| ==> entries[i].0 in props && ReadEntry(es[i], entries[i].0, props[entries[i].0])
  }

  ghost predicate ReadEntry(e: Entry, key: string, v: PropertyValue) {
    e.key == Identifier(key) && Means(e.value, if Storable(v) then ToValue(v) else Null)
  }

  lemma {:induction false} ResolvedRead(entries: PrintedProps, props: Props, es: seq<Entry>, k: nat, rec: Record, ctx: Context)
    requires Prints(entries, props) && ReadFrom(es, entries, props) && k <= |entries| && NoFloatNames(rec)
    ensures Resolved(Inline(es[k..]), rec, ctx, Named(entries, props, k)) ==
            if forall i :: k <= i < |entries| ==> Storable(props[entries[i].0]) then Some(props) else None
    decreases |entries| - k
  {
    hide Named, Means, Storable;
    if k == |entries| {
      AllNamed(entries, props);
    } else {
      var key := entries[k].0;
      NamedStep(entries, props, k);
      ResolvedRead(entries, props, es, k + 1, rec, ctx);
      assert es[k..][0] == es[k] && es[k..][1..] == es[k + 1..];
      var inline := Inline(es[k..]);
      assert ReadEntry(es[k], key, props[key]);
      assert inline[0] == (key, es[k].value) && inline[1..] == Inline(es[k + 1..]);
      EntryMeans(es[k], key, props[key], rec, ctx);
    }
  }

  lemma EntryMeans(e: Entry, key: string, v: PropertyValue, rec: Record, ctx: Context)
    requires ReadEntry(e, key, v) && NoFloatNames(rec)
    ensures Eval(e.value, rec, ctx).Some?
    ensures AsScalar(Eval(e.value, rec, ctx).value) == if Storable(v) then Some(v) else None
  {
  }

  lemma AllNamed(entries: PrintedProps, props: Props)
    requires Prints(entries, props)
    ensures Named(entries, props, |entries|) == props && Named(entries, props, 0) == map[]
  {
    assert entries[..|entries|] == entries;
  }

  // A printed property map is read unless a value is the least integer or a key
  // no identifier; it then resolves to the properties it was printed from, and
  // is an error when one of them is a float that is not finite.
  lemma MapReadsBack(entries: PrintedProps, props: Props)
    requires Prints(entries, props)
    ensures ReadMap(entries).Some? <==> ReadableProps(props)
    ensures ReadableProps(props) ==> forall rec, ctx | NoFloatNames(rec) ::
              PatternProps(ReadMap(entries).value, rec, ctx) == if StorableProps(props) then Some(props) else None
  {
    hide ReadValue, PrintValue, IsIdentifier, Means;
    forall i | 0 <= i < |entries| ensures ReadValue(entries[i].1).Some? <==> Readable(props[entries[i].0]) {
      ReadPrinted(props[entries[i].0]);
    }
    ReadPropsIs(entries);
    if ReadMap(entries).Some? {
      forall k | k in props ensures Readable(props[k]) && IsIdentifier(k) {
        var i :| 0 <= i < |entries| && entries[i].0 == k;
      }
    }
    if ReadableProps(props) {
      forall rec, ctx | NoFloatNames(rec)
        ensures PatternProps(ReadMap(entries).value, rec, ctx) == if StorableProps(props) then Some(props) else None
      {
        ResolvesBack(entries, props, rec, ctx);
      }
    }
  }

  lemma ResolvesBack(entries: PrintedProps, props: Props, rec: Record, ctx: Context)
    requires Prints(entries, props) && ReadableProps(props) && ReadMap(entries).Some? && NoFloatNames(rec)
    ensures PatternProps(ReadMap(entries).value, rec, ctx) == if StorableProps(props) then Some(props) else None
  {
    hide ReadValue, PrintValue, IsIdentifier, Means, Storable, Readable;
    AllNamed(entries, props);
    ReadPropsIs(entries);
    if entries == [] {
      assert props == map[];
    } else {
      var es := ReadProps(entries).value;
      forall i | 0 <= i < |es| ensures ReadEntry(es[i], entries[i].0, props[entries[i].0]) {
        ReadPrinted(props[entries[i].0]);
      }
      ResolvedRead(entries, props, es, 0, rec, ctx);
      assert es[0..] == es;
      assert StorableProps(props) <==> forall i :: 0 <= i < |entries| ==> Storable(props[entries[i].0]) by {
        forall k | k in props ensures exists i :: 0 <= i < |entries| && entries[i].0 == k {
          assert Has(entries, k);
        }
      }
    }
  }

  // --- One part ---

  predicate ReadableNode(n: Node) {
    ReadableProps(n.props) && forall i :: 0 <= i < |n.labels| ==> IsIdentifier(n.labels[i])
  }

  predicate ReadableEdge(e: Edge) {
    ReadableProps(e.props) && IsIdentifier(e.relType)
  }

  lemma NodePartCreates(part: Part, n: Node, g: Graph, rec: Record, ctx: Context)
    requires PrintsNode(part, n) && NoFloatNames(rec)
    ensures ReadPart(part).Some? <==> ReadableNode(n)
    ensures ReadableNode(n) ==>
              RowCreated(g, NoRules, rec, ReadPart(part).value, ctx) ==
              if StorableProps(n.props) then
                (AddNode(g, n.labels, n.props), Some(rec[VariableOf(n.id) := NodeVal(Node(g.nextNode, n.labels, n.props))]))
              else (g, None)
  {
    hide Prints, ReadMap, PatternProps, VariableOf, ReadableProps, StorableProps, IsIdentifier, NoFloatNames;
    MapReadsBack(part.props, n.props);
    VariableReads(n.id);
  }

  lemma EdgePartReads(part: Part, e: Edge)
    requires PrintsEdge(part, e)
    ensures ReadPart(part).Some? <==> ReadableEdge(e)
  {
    hide Prints, ReadMap, VariableOf, ReadableProps, IsIdentifier;
    MapReadsBack(part.props, e.props);
    VariableReads(e.src);
    VariableReads(e.dst);
  }

  predicate BoundTo(rec: Record, variable: string, id: NodeId) {
    variable in rec && rec[variable].NodeVal? && rec[variable].node.id == id
  }

  lemma EdgePartCreates(part: Part, e: Edge, g: Graph, rec: Record, ctx: Context, src: NodeId, dst: NodeId)
    requires PrintsEdge(part, e) && ReadableEdge(e) && NoFloatNames(rec)
    requires BoundTo(rec, VariableOf(e.src), src) && BoundTo(rec, VariableOf(e.dst), dst)
    requires src in g.nodes && dst in g.nodes
    ensures ReadPart(part).Some?
    ensures RowCreated(g, NoRules, rec, ReadPart(part).value, ctx) ==
            if StorableProps(e.props) then (AddEdge(g, e.relType, src, dst, e.props).0, Some(rec)) else (g, None)
  {
    hide Prints, ReadMap, PatternProps, VariableOf, ReadableProps, StorableProps, IsIdentifier, NoFloatNames;
    MapReadsBack(part.props, e.props);
    VariableReads(e.src);
    VariableReads(e.dst);
    var (start, elements) := (ReadPart(part).value.start, ReadPart(part).value.elements);
    assert Init(elements) == [];
    assert ChainPlaced(g, rec, start, [], ctx) == Progress(g, Some((src, rec)));
    assert NodePlaced(g, rec, Last(elements).node, ctx) == Progress(g, Some((dst, rec)));
    assert ElementPlaced(g, src, rec, Last(elements), ctx).at == if StorableProps(e.props) then Some((dst, rec)) else None;
  }

  // --- All parts ---

  lemma {:induction false} ReadPartsIs(parts: seq<Part>)
    ensures ReadParts(parts).Some? <==> forall i :: 0 <= i < |parts| ==> ReadPart(parts[i]).Some?
    ensures ReadParts(parts).Some? ==> |ReadParts(parts).value| == |parts|
  {
    hide ReadPart;
    if parts != [] {
      ReadPartsIs(Init(parts));
    }
  }

  // No value is the least integer, and every label, type and key is an identifier.
  ghost predicate ReadableGraph(g: Graph) {
    && (forall n :: n in g.nodes ==> ReadableNode(g.nodes[n]))
    && (forall e :: e in g.edges ==> ReadableEdge(g.edges[e]))
  }

  // Every float is finite.
  ghost predicate StorableGraph(g: Graph) {
    && (forall n :: n in g.nodes ==> StorableProps(g.nodes[n].props))
    && (forall e :: e in g.edges ==> StorableProps(g.edges[e].props))
  }

  ghost predicate Builds(parts: seq<Part>, h: Graph, row: Record, ctx: Context) {
    && ReadParts(parts).Some?
    && AllCreated(EmptyGraph, NoRules, ReadParts(parts).value, [map[]], ctx) == (h, Some([row]))
  }

  lemma BuildsMore(parts: seq<Part>, part: Part, h: Graph, row: Record, h2: Graph, row2: Record, ctx: Context)
    requires Builds(parts, h, row, ctx) && ReadPart(part).Some?
    requires RowCreated(h, NoRules, row, ReadPart(part).value, ctx) == (h2, Some(row2))
    ensures Builds(parts + [part], h2, row2, ctx)
  {
    hide ReadPart, RowCreated;
    assert Init(parts + [part]) == parts && Last(parts + [part]) == part;
    var before, op := ReadParts(parts).value, ReadPart(part).value;
    assert ReadParts(parts + [part]) == Some(before + [op]);
    assert Init(before + [op]) == before && Last(before + [op]) == op;
    OneRow(h, row, op, h2, row2, ctx);
  }

  // The parts are read, but creating them is an error.
  ghost predicate Fails(parts: seq<Part>, ctx: Context) {
    ReadParts(parts).Some? && AllCreated(EmptyGraph, NoRules, ReadParts(parts).value, [map[]], ctx).1.None?
  }

  lemma BuildFails(parts: seq<Part>, part: Part, h: Graph, row: Record, ctx: Context)
    requires ReadPart(part).Some?
    requires Fails(parts, ctx) || (Builds(parts, h, row, ctx) && RowCreated(h, NoRules, row, ReadPart(part).value, ctx).1.None?)
    ensures Fails(parts + [part], ctx)
  {
    hide ReadPart, RowCreated;
    assert Init(parts + [part]) == parts && Last(parts + [part]) == part;
    var before, op := ReadParts(parts).value, ReadPart(part).value;
    assert ReadParts(parts + [part]) == Some(before + [op]);
    assert Init(before + [op]) == before && Last(before + [op]) == op;
    if !Fails(parts, ctx) {
      assert Init([row]) == [] && Last([row]) == row && BaseRows([row]) == [row];
      assert RowsCreated(h, NoRules, [], op, ctx) == (h, Some([]));
    }
  }

  lemma OneRow(h: Graph, row: Record, op: CreateOp, h2: Graph, row2: Record, ctx: Context)
    requires RowCreated(h, NoRules, row, op, ctx) == (h2, Some(row2))
    ensures RowsCreated(h, NoRules, BaseRows([row]), op, ctx) == (h2, Some([row2]))
  {
    hide RowCreated;
    assert Init([row]) == [] && Last([row]) == row && BaseRows([row]) == [row];
    assert RowsCreated(h, NoRules, [], op, ctx) == (h, Some([]));
    assert [] + [row2] == [row2];
  }

  lemma NextNode(g: Graph, i: nat)
    requires GraphOk(g) && i < |NodeIds(g)|
    ensures NodeIds(g)[i] in g.nodes
    ensures var n := g.nodes[NodeIds(g)[i]];
            && n.id == NodeIds(g)[i]
            && AddNode(Replayed(g, i, 0), n.labels, n.props) == Replayed(g, i + 1, 0)
            && RowAfter(g, i)[VariableOf(n.id) := NodeVal(Node(i, n.labels, n.props))] == RowAfter(g, i + 1)
  {
    IdsAreLive(g);
    hide NodeIds, VariableOf;
    assert NodeAt(g, i) == Node(i, g.nodes[NodeIds(g)[i]].labels, g.nodes[NodeIds(g)[i]].props);
  }

  lemma NextEdge(g: Graph, j: nat)
    requires GraphOk(g) && j < |EdgeIds(g)|
    ensures EdgeIds(g)[j] in g.edges
    ensures var e := g.edges[EdgeIds(g)[j]];
            AddEdge(Replayed(g, |NodeIds(g)|, j), e.relType, Rank(g, e.src), Rank(g, e.dst), e.props).0 ==
            Replayed(g, |NodeIds(g)|, j + 1)
  {
    IdsAreLive(g);
    hide NodeIds, EdgeIds, Rank;
    var e := g.edges[EdgeIds(g)[j]];
    assert EdgeAt(g, j) == Edge(j, e.relType, Rank(g, e.src), Rank(g, e.dst), e.props);
  }

  // What the exported parts are, position by position.
  lemma PartsAre(g: Graph, parts: seq<Part>)
    requires GraphOk(g) && ExportOf(g, parts) && g.nodes != map[]
    ensures |parts| == |NodeIds(g)| + |EdgeIds(g)|
    ensures forall i :: 0 <= i < |NodeIds(g)| ==> NodePartAt(g, parts, i)
    ensures forall i :: 0 <= i < |EdgeIds(g)| ==> EdgePartAt(g, parts, i)
  {
    hide PrintsNode, PrintsEdge, NodeIds, EdgeIds;
  }

  // The first parts, `i` nodes and `j` relationships of them, build what they should.
  ghost predicate BuiltUpTo(g: Graph, parts: seq<Part>, i: nat, j: nat, ctx: Context) {
    && GraphOk(g) && i <= |NodeIds(g)| && j <= |EdgeIds(g)| && i + j <= |parts|
    && Builds(parts[..i + j], Replayed(g, i, j), RowAfter(g, i), ctx)
  }

  ghost predicate NodePartAt(g: Graph, parts: seq<Part>, i: nat) {
    i < |NodeIds(g)| && i < |parts| && NodeIds(g)[i] in g.nodes && PrintsNode(parts[i], g.nodes[NodeIds(g)[i]])
  }

  ghost predicate EdgePartAt(g: Graph, parts: seq<Part>, j: nat) {
    && j < |EdgeIds(g)| && |NodeIds(g)| + j < |parts|
    && EdgeIds(g)[j] in g.edges && PrintsEdge(parts[|NodeIds(g)| + j], g.edges[EdgeIds(g)[j]])
  }

  // What the first parts come to: the graph so far, or an error once a part
  // holds a float that is not finite.
  ghost predicate ReplaysTo(g: Graph, parts: seq<Part>, i: nat, j: nat, storable: bool, ctx: Context) {
    if storable then BuiltUpTo(g, parts, i, j, ctx) else i + j <= |parts| && Fails(parts[..i + j], ctx)
  }

  ghost predicate NodesStorable(g: Graph, i: nat) {
    forall k :: 0 <= k < i && k < |NodeIds(g)| ==> NodeIds(g)[k] in g.nodes && StorableProps(g.nodes[NodeIds(g)[k]].props)
  }

  ghost predicate EdgesStorable(g: Graph, j: nat) {
    forall k :: 0 <= k < j && k < |EdgeIds(g)| ==> EdgeIds(g)[k] in g.edges && StorableProps(g.edges[EdgeIds(g)[k]].props)
  }

  lemma {:induction false} RowsAreNumbered(g: Graph, i: nat)
    requires i <= |NodeIds(g)|
    ensures NoFloatNames(RowAfter(g, i))
    decreases i
  {
    hide NodeIds, NodeAt;
    if i > 0 {
      RowsAreNumbered(g, i - 1);
      assert VariableOf(NodeIds(g)[i - 1])[0] == '_' && "NaN"[0] == 'N' && "inf"[0] == 'i';
    }
  }

  lemma ReplayNode(g: Graph, parts: seq<Part>, i: nat, storable: bool, ctx: Context)
    requires GraphOk(g) && ReadableGraph(g) && NodePartAt(g, parts, i) && ReplaysTo(g, parts, i, 0, storable, ctx)
    ensures ReplaysTo(g, parts, i + 1, 0, storable && StorableProps(g.nodes[NodeIds(g)[i]].props), ctx)
  {
    hide PrintsNode, PrintsEdge, ReadableNode, ReadableEdge, StorableProps, Builds, Fails, RowAfter, VariableOf, NodeIds, EdgeIds,
         Replayed, ReadPart, RowCreated, BoundTo, Rank, GraphOk, NoFloatNames;
    var n := g.nodes[NodeIds(g)[i]];
    assert ReadableNode(n);
    var (h, row, h2, row2) := (Replayed(g, i, 0), RowAfter(g, i), Replayed(g, i + 1, 0), RowAfter(g, i + 1));
    NextNode(g, i);
    ReplayedCounts(g, i, 0);
    RowsAreNumbered(g, i);
    NodePartCreates(parts[i], n, h, row, ctx);
    assert parts[..i + 1] == parts[..i] + [parts[i]];
    if storable && StorableProps(n.props) {
      BuildsMore(parts[..i], parts[i], h, row, h2, row2, ctx);
    } else {
      BuildFails(parts[..i], parts[i], h, row, ctx);
    }
  }

  lemma ReplayedCounts(g: Graph, i: nat, j: nat)
    requires GraphOk(g) && i <= |NodeIds(g)| && j <= |EdgeIds(g)|
    ensures Replayed(g, i, j).nextNode == i && Replayed(g, i, j).nextEdge == j
  {
  }

  lemma NothingReplayed(g: Graph, parts: seq<Part>, ctx: Context)
    requires GraphOk(g)
    ensures ReplaysTo(g, parts, 0, 0, true, ctx)
  {
    hide NodeIds, EdgeIds;
    assert Replayed(g, 0, 0) == EmptyGraph;
    assert parts[..0] == [];
  }

  lemma {:induction false} ReplayNodes(g: Graph, parts: seq<Part>, i: nat, ctx: Context)
    requires GraphOk(g) && ExportOf(g, parts) && ReadableGraph(g) && g.nodes != map[] && i <= |NodeIds(g)|
    ensures ReplaysTo(g, parts, i, 0, NodesStorable(g, i), ctx)
    decreases i
  {
    hide *;
    PartsAre(g, parts);
    if i == 0 {
      NothingReplayed(g, parts, ctx);
      NothingToStore(g);
    } else {
      ReplayNodes(g, parts, i - 1, ctx);
      ReplayNode(g, parts, i - 1, NodesStorable(g, i - 1), ctx);
      OneMoreNode(g, i - 1);
    }
  }

  lemma NothingToStore(g: Graph)
    ensures NodesStorable(g, 0) && EdgesStorable(g, 0)
  {
  }

  lemma OneMoreNode(g: Graph, i: nat)
    requires i < |NodeIds(g)|
    ensures NodeIds(g)[i] in g.nodes
    ensures NodesStorable(g, i + 1) <==> NodesStorable(g, i) && StorableProps(g.nodes[NodeIds(g)[i]].props)
  {
    IdsAreLive(g);
    hide NodeIds, StorableProps;
  }

  lemma OneMoreEdge(g: Graph, j: nat)
    requires j < |EdgeIds(g)|
    ensures EdgeIds(g)[j] in g.edges
    ensures EdgesStorable(g, j + 1) <==> EdgesStorable(g, j) && StorableProps(g.edges[EdgeIds(g)[j]].props)
  {
    IdsAreLive(g);
    hide EdgeIds, StorableProps;
  }

  lemma EndsAreBound(g: Graph, id: NodeId)
    requires GraphOk(g) && id in g.nodes
    ensures BoundTo(RowAfter(g, |NodeIds(g)|), VariableOf(id), Rank(g, id))
    ensures forall j :: 0 <= j <= |EdgeIds(g)| ==> Rank(g, id) in Replayed(g, |NodeIds(g)|, j).nodes
  {
    RowBinds(g, |NodeIds(g)|, Rank(g, id));
    hide NodeIds, EdgeIds, Rank, RowAfter, VariableOf;
  }

  lemma ReplayEdge(g: Graph, parts: seq<Part>, j: nat, storable: bool, ctx: Context)
    requires GraphOk(g) && ReadableGraph(g) && EdgePartAt(g, parts, j) && ReplaysTo(g, parts, |NodeIds(g)|, j, storable, ctx)
    ensures ReplaysTo(g, parts, |NodeIds(g)|, j + 1, storable && StorableProps(g.edges[EdgeIds(g)[j]].props), ctx)
  {
    hide PrintsNode, PrintsEdge, ReadableNode, ReadableEdge, StorableProps, Builds, Fails, RowAfter, VariableOf, NodeIds, EdgeIds,
         Replayed, ReadPart, RowCreated, BoundTo, Rank, NoFloatNames;
    var n := |NodeIds(g)|;
    var (part, e) := (parts[n + j], g.edges[EdgeIds(g)[j]]);
    assert ReadableEdge(e) && e.src in g.nodes && e.dst in g.nodes;
    var (h, row, h2) := (Replayed(g, n, j), RowAfter(g, n), Replayed(g, n, j + 1));
    NextEdge(g, j);
    EndsAreBound(g, e.src);
    EndsAreBound(g, e.dst);
    RowsAreNumbered(g, n);
    EdgePartCreates(part, e, h, row, ctx, Rank(g, e.src), Rank(g, e.dst));
    assert parts[..n + j + 1] == parts[..n + j] + [part];
    if storable && StorableProps(e.props) {
      BuildsMore(parts[..n + j], part, h, row, h2, row, ctx);
    } else {
      BuildFails(parts[..n + j], part, h, row, ctx);
    }
  }

  lemma {:induction false} ReplayEdges(g: Graph, parts: seq<Part>, j: nat, ctx: Context)
    requires GraphOk(g) && ExportOf(g, parts) && ReadableGraph(g) && g.nodes != map[] && j <= |EdgeIds(g)|
    ensures ReplaysTo(g, parts, |NodeIds(g)|, j, NodesStorable(g, |NodeIds(g)|) && EdgesStorable(g, j), ctx)
    decreases j
  {
    hide *;
    PartsAre(g, parts);
    if j == 0 {
      ReplayNodes(g, parts, |NodeIds(g)|, ctx);
      NothingToStore(g);
    } else {
      ReplayEdges(g, parts, j - 1, ctx);
      ReplayEdge(g, parts, j - 1, NodesStorable(g, |NodeIds(g)|) && EdgesStorable(g, j - 1), ctx);
      OneMoreEdge(g, j - 1);
    }
  }

  lemma StorableEverywhere(g: Graph)
    ensures StorableGraph(g) <==> NodesStorable(g, |NodeIds(g)|) && EdgesStorable(g, |EdgeIds(g)|)
  {
    hide StorableProps;
    IdsAreLive(g);
    EveryId(g);
    hide NodeIds, EdgeIds;
  }

  lemma PartsReadBack(g: Graph, parts: seq<Part>, ctx: Context)
    requires GraphOk(g) && ExportOf(g, parts) && g.nodes != map[]
    ensures ReadParts(parts).Some? <==> ReadableGraph(g)
  {
    hide ReadPart, ReadableNode, ReadableEdge, GraphOk, ExportOf, ReadableAt;
    PartsAre(g, parts);
    ReadPartsIs(parts);
    ReadableEverywhere(g);
    forall k | 0 <= k < |parts| ensures ReadPart(parts[k]).Some? <==> ReadableAt(g, k) {
      PartReadsBack(g, parts, k, ctx);
    }
  }

  // What the `k`-th part prints reads back.
  ghost predicate ReadableAt(g: Graph, k: nat)
    requires k < |NodeIds(g)| + |EdgeIds(g)|
  {
    IdsAreLive(g);
    if k < |NodeIds(g)| then ReadableNode(g.nodes[NodeIds(g)[k]])
    else ReadableEdge(g.edges[EdgeIds(g)[k - |NodeIds(g)|]])
  }

  lemma PartReadsBack(g: Graph, parts: seq<Part>, k: nat, ctx: Context)
    requires GraphOk(g) && ExportOf(g, parts) && g.nodes != map[] && k < |parts|
    ensures k < |NodeIds(g)| + |EdgeIds(g)|
    ensures ReadPart(parts[k]).Some? <==> ReadableAt(g, k)
  {
    hide ReadPart, ReadableNode, ReadableEdge, GraphOk, ExportOf, PrintsNode, PrintsEdge, NodeIds, EdgeIds;
    PartsAre(g, parts);
    if k < |NodeIds(g)| {
      assert NodePartAt(g, parts, k);
      assert NoFloatNames(map[]);
      NodePartCreates(parts[k], g.nodes[NodeIds(g)[k]], EmptyGraph, map[], ctx);
    } else {
      assert EdgePartAt(g, parts, k - |NodeIds(g)|);
      EdgePartReads(parts[k], g.edges[EdgeIds(g)[k - |NodeIds(g)|]]);
    }
  }

  lemma ReadableEverywhere(g: Graph)
    ensures ReadableGraph(g) <==> forall k :: 0 <= k < |NodeIds(g)| + |EdgeIds(g)| ==> ReadableAt(g, k)
  {
    hide ReadableNode, ReadableEdge;
    IdsAreLive(g);
    EveryId(g);
    hide NodeIds, EdgeIds;
    var (ns, es) := (NodeIds(g), EdgeIds(g));
    if forall k :: 0 <= k < |ns| + |es| ==> ReadableAt(g, k) {
      forall n | n in g.nodes ensures ReadableNode(g.nodes[n]) {
        var i :| 0 <= i < |ns| && ns[i] == n;
        assert ReadableAt(g, i);
      }
      forall e | e in g.edges ensures ReadableEdge(g.edges[e]) {
        var i :| 0 <= i < |es| && es[i] == e;
        assert ReadableAt(g, |ns| + i);
      }
    }
  }

  lemma EveryId(g: Graph)
    ensures forall n :: n in g.nodes ==> exists i :: 0 <= i < |NodeIds(g)| && NodeIds(g)[i] == n
    ensures forall e :: e in g.edges ==> exists i :: 0 <= i < |EdgeIds(g)| && EdgeIds(g)[i] == e
  {
    forall n | n in g.nodes ensures exists i :: 0 <= i < |NodeIds(g)| && NodeIds(g)[i] == n { var _ := Rank(g, n); }
    forall e | e in g.edges ensures exists i :: 0 <= i < |EdgeIds(g)| && EdgeIds(g)[i] == e { var _ := EdgeRank(g, e); }
  }

  // An export is read exactly when no value in the graph is the least integer
  // and every label, type and key is an identifier. Replayed in an empty graph
  // it then goes through exactly when every float is finite, and gives the graph
  // renumbered by rank, which is isomorphic to the one exported.
  lemma ExportReplays(g: Graph, parts: seq<Part>, ctx: Context)
    requires GraphOk(g) && ExportOf(g, parts) && g.nodes != map[]
    ensures ReadParts(parts).Some? <==> ReadableGraph(g)
    ensures ReadableGraph(g) ==>
              var (h, rows) := AllCreated(EmptyGraph, NoRules, ReadParts(parts).value, [map[]], ctx);
              && (rows.Some? <==> StorableGraph(g))
              && (rows.Some? ==> h == Renumbered(g) && rows.value == [RowAfter(g, |NodeIds(g)|)])
    ensures IsomorphicBy(g, Renumbered(g), NodeRanks(g), EdgeRanks(g))
  {
    hide ReadParts, ReadableGraph, StorableGraph, IsomorphicBy, ExportOf, GraphOk, NodeIds, EdgeIds, RowAfter, AllCreated, NodeRanks, EdgeRanks, Replayed;
    PartsReadBack(g, parts, ctx);
    RenumberedIsIsomorphic(g);
    PartsAre(g, parts);
    if ReadableGraph(g) {
      StorableEverywhere(g);
      ReplayEdges(g, parts, |EdgeIds(g)|, ctx);
      assert parts[..|NodeIds(g)| + |EdgeIds(g)|] == parts;
    }
  }

  function UntypedGraph(): Graph {
    Graph(map[0 := Node(0, [], map[]), 1 := Node(1, [], map[])], map[0 := Edge(0, "", 0, 1, map[])], 2, 1)
  }

  lemma UntypedRow(ctx: Context)
    ensures RowCreated(EmptyGraph, NoRules, map[], UntypedPath(), ctx) == (UntypedGraph(), Some(map[]))
  {
    var (start, elements) := (UntypedPath().start, UntypedPath().elements);
    assert PatternProps(None, map[], ctx) == Some(map[]);
    assert Init(elements) == [] && Last(elements) == elements[0];
    var p := NodePlaced(EmptyGraph, map[], start, ctx);
    assert ChainPlaced(EmptyGraph, map[], start, [], ctx) == p;
    assert p == Progress(Graph(map[0 := Node(0, [], map[])], map[], 1, 0), Some((0, map[])));
    var q := ElementPlaced(p.g, 0, map[], elements[0], ctx);
    assert q.g.nodes == UntypedGraph().nodes && q.g.edges == UntypedGraph().edges;
    assert q == Progress(UntypedGraph(), Some((1, map[])));
  }

  lemma UntypedCreated(ctx: Context)
    ensures AllCreated(EmptyGraph, NoRules, [UntypedPath()], [map[]], ctx) == (UntypedGraph(), Some([map[]]))
  {
    hide RowCreated, RowsCreated, UntypedGraph, UntypedPath;
    var op := UntypedPath();
    UntypedRow(ctx);
    OneRow(EmptyGraph, map[], op, UntypedGraph(), map[], ctx);
    assert Init([op]) == [] && Last([op]) == op;
    assert AllCreated(EmptyGraph, NoRules, [], [map[]], ctx) == (EmptyGraph, Some([map[]]));
  }

  // A relationship created without a type is exported, and cannot be read.
  lemma UntypedRelationshipIsLost(ctx: Context, parts: seq<Part>)
    requires ExportOf(AllCreated(EmptyGraph, NoRules, [UntypedPath()], [map[]], ctx).0, parts)
    ensures AllCreated(EmptyGraph, NoRules, [UntypedPath()], [map[]], ctx).1.Some?
    ensures ReadParts(parts).None?
  {
    hide *;
    UntypedCreated(ctx);
    UntypedIsUnreadable();
    PartsReadBack(UntypedGraph(), parts, ctx);
  }

  lemma UntypedIsUnreadable()
    ensures GraphOk(UntypedGraph()) && UntypedGraph().nodes != map[] && !ReadableGraph(UntypedGraph())
  {
    hide IsRefused, ReadableNode;
    assert 0 in UntypedGraph().nodes && 0 in UntypedGraph().edges;
    assert UntypedGraph().edges[0].relType == "";
  }

  // `CREATE ()-[]->()`
  function UntypedPath(): CreateOp {
    MakePath(NodePattern(None, [], None), [Element(RelPattern(None, [], Outgoing, None), NodePattern(None, [], None))])
  }
}
