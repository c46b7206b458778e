// The ScanNodes, Filter and Expand arms of `execute_to_records`, and what a
// planned MATCH chain returns.

module MatchExecution {
  import opened GraphTypes
  import opened Sequences
  import opened AbstractGraph
  import opened MemoryStorages
  import opened Trails
  import opened Expressions
  import opened Planner

  // --- Scans ---

  datatype ScanKey = ScanFails | NeverMatches | Probe(props: Props)

  // The inline properties evaluated in order; a later entry for a key replaces
  // an earlier one.
  function ScanKeyOf(inline: InlineProps, ctx: Context, acc: Props): ScanKey
    decreases |inline|
  {
    if inline == [] then Probe(acc)
    else
      var v := Eval(inline[0].1, map[], ctx);
      if v.None? then ScanFails
      else if AsScalar(v.value).None? then NeverMatches
      else ScanKeyOf(inline[1..], ctx, acc[inline[0].0 := AsScalar(v.value).value])
  }

  ghost predicate ScanReturns(g: Graph, ctx: Context, lab: Option<string>, inline: InlineProps, r: Option<seq<Node>>) {
    match ScanKeyOf(inline, ctx, map[])
    case ScanFails => r.None?
    case NeverMatches => r == Some([])
    case Probe(props) => r.Some? && Enumerates(r.value, IndexScan(g, lab, props))
  }

  method ExecuteScan(storage: MemoryStorage, ctx: Context, lab: Option<string>, inline: InlineProps)
    returns (r: Option<seq<Node>>)
    requires storage.Valid()
    ensures ScanReturns(storage.View(), ctx, lab, inline, r)
  {
    hide MemoryStorage.Valid;
    if inline == [] {
      var nodes := storage.MatchNodes(lab);
      assert LabelScan(storage.View(), lab) == IndexScan(storage.View(), lab, map[]);
      return Some(nodes);
    }
    var props: Props := map[];
    for i := 0 to |inline|
      invariant ScanKeyOf(inline[i..], ctx, props) == ScanKeyOf(inline, ctx, map[])
    {
      var (key, expr) := inline[i];
      assert inline[i..][0] == inline[i] && inline[i..][1..] == inline[i + 1..];
      var v := Eval(expr, map[], ctx);
      if v.None? {
        return None;
      }
      var scalar := AsScalar(v.value);
      if scalar.None? {
        return Some([]);
      }
      props := props[key := scalar.value];
    }
    var nodes := storage.MatchNodesWithProps(lab, props);
    r := Some(nodes);
  }

  ghost function ScanRows(variable: string, nodes: seq<Node>): seq<Record> {
    seq(|nodes|, i requires 0 <= i < |nodes| => map[variable := NodeVal(nodes[i])])
  }

  // --- Filters: the first error fails the whole plan ---

  function FilterRows(rows: seq<Record>, condition: Expr, ctx: Context): Option<seq<Record>>
    decreases |rows|
  {
    if rows == [] then Some([])
    else
      var before, v := FilterRows(Init(rows), condition, ctx), Eval(condition, Last(rows), ctx);
      if before.None? || v.None? then None
      else Some(before.value + if IsTruthy(v.value) then [Last(rows)] else [])
  }

  lemma {:induction false} FilterFails(rows: seq<Record>, i: nat, condition: Expr, ctx: Context)
    requires i <= |rows| && FilterRows(rows[..i], condition, ctx).None?
    ensures FilterRows(rows, condition, ctx).None?
    decreases |rows| - i
  {
    if i == |rows| {
      assert rows[..i] == rows;
    } else {
      assert Init(rows[..i + 1]) == rows[..i];
      FilterFails(rows, i + 1, condition, ctx);
    }
  }

  // The rows on which the condition is true, in order.
  ghost predicate KeepsTrue(rows: seq<Record>, condition: Expr, ctx: Context, kept: seq<Record>) {
    exists at :: PickedAt(kept, rows, at)
              && forall i :: i in at <==> 0 <= i < |rows| && Eval(condition, rows[i], ctx) == Some(Boolean(true))
  }

  lemma {:induction false} FilterMeans(rows: seq<Record>, condition: Expr, ctx: Context) returns (at: seq<nat>)
    ensures FilterRows(rows, condition, ctx).None? <==> exists i :: 0 <= i < |rows| && Eval(condition, rows[i], ctx).None?
    ensures FilterRows(rows, condition, ctx).Some? ==>
              && PickedAt(FilterRows(rows, condition, ctx).value, rows, at)
              && forall i :: i in at <==> 0 <= i < |rows| && Eval(condition, rows[i], ctx) == Some(Boolean(true))
    decreases |rows|
  {
    hide Eval;
    at := [];
    if rows != [] {
      var init, l := Init(rows), Last(rows);
      assert rows == init + [l];
      at := FilterMeans(init, condition, ctx);
      var before, v := FilterRows(init, condition, ctx), Eval(condition, l, ctx);
      if before.Some? && v.Some? {
        PickOneMore(before.value, init, at, l);
        assert before.value + [] == before.value;
        at := at + if IsTruthy(v.value) then [|init|] else [];
      }
    }
  }

  method ExecuteFilter(rows: seq<Record>, condition: Expr, ctx: Context) returns (r: Option<seq<Record>>)
    ensures r == FilterRows(rows, condition, ctx)
    ensures r.None? <==> exists i :: 0 <= i < |rows| && Eval(condition, rows[i], ctx).None?
    ensures r.Some? ==> KeepsTrue(rows, condition, ctx, r.value)
  {
    hide Eval, PickedAt;
    ghost var at := FilterMeans(rows, condition, ctx);
    var kept: seq<Record> := [];
    for i := 0 to |rows|
      invariant FilterRows(rows[..i], condition, ctx) == Some(kept)
    {
      assert Init(rows[..i + 1]) == rows[..i] && Last(rows[..i + 1]) == rows[i];
      var v := Eval(condition, rows[i], ctx);
      if v.None? {
        FilterFails(rows, i + 1, condition, ctx);
        return None;
      }
      kept := kept + if IsTruthy(v.value) then [rows[i]] else [];
    }
    assert rows[..|rows|] == rows;
    r := Some(kept);
  }

  // --- Expand ---

  datatype Hop = Hop(relVar: Option<string>, dst: string, relTypes: seq<string>, dir: Direction)

  ghost function CandidateEdges(g: Graph, dir: Direction, n: NodeId): seq<Edge> {
    EdgesOf(g, Candidates(g, dir, n))
  }

  predicate HopKeeps(g: Graph, hop: Hop, cur: NodeId, e: Edge) {
    TypeOk(hop.relTypes, e.relType) && Far(hop.dir, e, cur) in g.nodes
  }

  function Bind(rec: Record, hop: Hop, e: Edge, n: Node): Record {
    (if hop.relVar.Some? then rec[hop.relVar.value := RelVal(e)] else rec)[hop.dst := NodeVal(n)]
  }

  function ExpandEdges(g: Graph, rec: Record, hop: Hop, cur: NodeId, es: seq<Edge>): seq<Record>
    decreases |es|
  {
    if es == [] then []
    else
      ExpandEdges(g, rec, hop, cur, Init(es))
      + if HopKeeps(g, hop, cur, Last(es)) then [Bind(rec, hop, Last(es), g.nodes[Far(hop.dir, Last(es), cur)])] else []
  }

  ghost function ExpandRecord(g: Graph, rec: Record, src: string, hop: Hop): seq<Record> {
    if src in rec && rec[src].NodeVal?
    then ExpandEdges(g, rec, hop, rec[src].node.id, CandidateEdges(g, hop.dir, rec[src].node.id))
    else []
  }

  ghost function ExpandRows(g: Graph, rows: seq<Record>, src: string, hop: Hop): seq<Record>
    decreases |rows|
  {
    if rows == [] then [] else ExpandRows(g, Init(rows), src, hop) + ExpandRecord(g, Last(rows), src, hop)
  }

  // The row has the edge and the node it leads to under their names.
  ghost predicate BindsHop(rec: Record, hop: Hop, row: Record, e: Edge, n: Node) {
    && hop.dst in row && row[hop.dst] == NodeVal(n)
    && (hop.relVar.Some? && hop.relVar != Some(hop.dst) ==> hop.relVar.value in row && row[hop.relVar.value] == RelVal(e))
    && SameBut(rec, row, {hop.dst} + if hop.relVar.Some? then {hop.relVar.value} else {})
  }

  // The edges of an allowed type that leave the node, then those that arrive,
  // as the direction admits, each in the order of their ids.
  ghost predicate TakenEdges(g: Graph, hop: Hop, cur: NodeId, leaving: seq<EdgeId>, arriving: seq<EdgeId>) {
    && StrictlySorted(leaving) && StrictlySorted(arriving)
    && (forall e :: e in leaving <==>
          !hop.dir.Incoming? && e in g.edges && g.edges[e].src == cur && (hop.relTypes == [] || g.edges[e].relType in hop.relTypes))
    && (forall e :: e in arriving <==>
          !hop.dir.Outgoing? && e in g.edges && g.edges[e].dst == cur && (hop.relTypes == [] || g.edges[e].relType in hop.relTypes))
  }

  // A row for each of them, or none when the source is no node.
  ghost predicate ExpandedRow(g: Graph, rec: Record, src: string, hop: Hop, rows: seq<Record>) {
    if !(src in rec && rec[src].NodeVal?) then rows == []
    else exists leaving, arriving :: TakenEdges(g, hop, rec[src].node.id, leaving, arriving)
                                  && |rows| == |leaving| + |arriving|
                                  && RowsBind(g, rec, hop, leaving, true, rows[..|leaving|])
                                  && RowsBind(g, rec, hop, arriving, false, rows[|leaving|..])
  }

  ghost predicate RowsBind(g: Graph, rec: Record, hop: Hop, es: seq<EdgeId>, forth: bool, rows: seq<Record>) {
    && |rows| == |es|
    && forall i :: 0 <= i < |es| ==>
         && es[i] in g.edges
         && var far := if forth then g.edges[es[i]].dst else g.edges[es[i]].src;
            far in g.nodes && BindsHop(rec, hop, rows[i], g.edges[es[i]], g.nodes[far])
  }

  lemma {:induction false} RowsOfEdges(g: Graph, rec: Record, hop: Hop, cur: NodeId, ids: seq<EdgeId>, forth: bool)
    returns (kept: seq<EdgeId>)
    requires GraphOk(g) && StrictlySorted(ids) && forall e :: e in ids ==> e in g.edges
    requires forall e :: e in ids ==> Far(hop.dir, g.edges[e], cur) == if forth then g.edges[e].dst else g.edges[e].src
    ensures StrictlySorted(kept)
    ensures forall e :: e in kept <==> e in ids && (hop.relTypes == [] || g.edges[e].relType in hop.relTypes)
    ensures RowsBind(g, rec, hop, kept, forth, ExpandEdges(g, rec, hop, cur, EdgesOf(g, ids)))
    decreases |ids|
  {
    hide EdgesOf, Far, BindsHop, ExpandEdges, RowsBind;
    kept := [];
    if ids == [] {
      NoEdgesNoRows(g, rec, hop, cur, forth);
    } else {
      var init, l := Init(ids), Last(ids);
      assert ids == init + [l] && l in ids;
      assert forall e :: e in init ==> e in ids;
      kept := RowsOfEdges(g, rec, hop, cur, init, forth);
      OneMoreEdge(g, rec, hop, cur, init, l, forth, kept);
      if TypeOk(hop.relTypes, g.edges[l].relType) {
        forall i | 0 <= i < |kept| ensures kept[i] < l { assert kept[i] in kept; }
        kept := kept + [l];
      } else {
        assert kept + [] == kept;
      }
    }
  }

  lemma NoEdgesNoRows(g: Graph, rec: Record, hop: Hop, cur: NodeId, forth: bool)
    ensures RowsBind(g, rec, hop, [], forth, ExpandEdges(g, rec, hop, cur, EdgesOf(g, [])))
  {
  }

  lemma BindBinds(rec: Record, hop: Hop, e: Edge, n: Node)
    ensures BindsHop(rec, hop, Bind(rec, hop, e, n), e, n)
  {
  }

  lemma OneMoreEdge(g: Graph, rec: Record, hop: Hop, cur: NodeId, ids: seq<EdgeId>, l: EdgeId, forth: bool, kept: seq<EdgeId>)
    requires GraphOk(g) && l in g.edges && (forall e :: e in ids + [l] ==> e in g.edges)
    requires forall e :: e in ids ==> e in g.edges
    requires Far(hop.dir, g.edges[l], cur) == if forth then g.edges[l].dst else g.edges[l].src
    requires RowsBind(g, rec, hop, kept, forth, ExpandEdges(g, rec, hop, cur, EdgesOf(g, ids)))
    ensures RowsBind(g, rec, hop, kept + (if TypeOk(hop.relTypes, g.edges[l].relType) then [l] else []), forth,
                     ExpandEdges(g, rec, hop, cur, EdgesOf(g, ids + [l])))
  {
    hide Far, Bind, BindsHop;
    var es, rows := EdgesOf(g, ids + [l]), ExpandEdges(g, rec, hop, cur, EdgesOf(g, ids));
    assert Init(es) == EdgesOf(g, ids) && Last(es) == g.edges[l];
    if TypeOk(hop.relTypes, g.edges[l].relType) {
      var row := Bind(rec, hop, g.edges[l], g.nodes[if forth then g.edges[l].dst else g.edges[l].src]);
      BindBinds(rec, hop, g.edges[l], g.nodes[if forth then g.edges[l].dst else g.edges[l].src]);
      assert ExpandEdges(g, rec, hop, cur, es) == rows + [row];
    } else {
      assert ExpandEdges(g, rec, hop, cur, es) == rows && kept + [] == kept;
    }
  }

  lemma {:induction false} ExpandEdgesAppend(g: Graph, rec: Record, hop: Hop, cur: NodeId, a: seq<Edge>, b: seq<Edge>)
    ensures ExpandEdges(g, rec, hop, cur, a + b) == ExpandEdges(g, rec, hop, cur, a) + ExpandEdges(g, rec, hop, cur, b)
    decreases |b|
  {
    hide HopKeeps;
    if b == [] {
      assert a + b == a;
    } else {
      assert Init(a + b) == a + Init(b) && Last(a + b) == Last(b);
      ExpandEdgesAppend(g, rec, hop, cur, a, Init(b));
    }
  }

  lemma RecordMeans(g: Graph, rec: Record, src: string, hop: Hop)
    requires GraphOk(g)
    ensures ExpandedRow(g, rec, src, hop, ExpandRecord(g, rec, src, hop))
  {
    if src in rec && rec[src].NodeVal? {
      hide *;
      var cur := rec[src].node.id;
      var out := if hop.dir.Incoming? then [] else OutIds(g, cur);
      var inc := if hop.dir.Outgoing? then [] else InIds(g, cur);
      IncidentLists(g, hop.dir, cur, out, inc);
      var leaving := RowsOfEdges(g, rec, hop, cur, out, true);
      var arriving := RowsOfEdges(g, rec, hop, cur, inc, false);
      RecordSplits(g, rec, src, hop, out, inc);
      BlocksBind(g, rec, hop, cur, leaving, arriving, out, inc);
      TakenIs(g, rec, src, hop, leaving, arriving, out, inc);
    }
  }

  lemma RecordSplits(g: Graph, rec: Record, src: string, hop: Hop, out: seq<EdgeId>, inc: seq<EdgeId>)
    requires src in rec && rec[src].NodeVal? && Candidates(g, hop.dir, rec[src].node.id) == out + inc
    requires (forall e :: e in out ==> e in g.edges) && (forall e :: e in inc ==> e in g.edges)
    ensures ExpandRecord(g, rec, src, hop) ==
            ExpandEdges(g, rec, hop, rec[src].node.id, EdgesOf(g, out)) + ExpandEdges(g, rec, hop, rec[src].node.id, EdgesOf(g, inc))
  {
    hide ExpandEdges, EdgesOf, Candidates;
    EdgesOfAppend(g, out, inc);
    ExpandEdgesAppend(g, rec, hop, rec[src].node.id, EdgesOf(g, out), EdgesOf(g, inc));
  }

  lemma IncidentLists(g: Graph, dir: Direction, cur: NodeId, out: seq<EdgeId>, inc: seq<EdgeId>)
    requires out == if dir.Incoming? then [] else OutIds(g, cur)
    requires inc == if dir.Outgoing? then [] else InIds(g, cur)
    ensures StrictlySorted(out) && StrictlySorted(inc)
    ensures (forall e :: e in out ==> e in g.edges) && (forall e :: e in inc ==> e in g.edges)
    ensures forall e :: e in out <==> !dir.Incoming? && e in g.edges && g.edges[e].src == cur
    ensures forall e :: e in inc <==> !dir.Outgoing? && e in g.edges && g.edges[e].dst == cur
    ensures forall e :: e in out ==> Far(dir, g.edges[e], cur) == g.edges[e].dst
    ensures forall e :: e in inc ==> Far(dir, g.edges[e], cur) == g.edges[e].src
    ensures Candidates(g, dir, cur) == out + inc
  {
  }

  lemma TakenIs(g: Graph, rec: Record, src: string, hop: Hop, leaving: seq<EdgeId>, arriving: seq<EdgeId>,
                out: seq<EdgeId>, inc: seq<EdgeId>)
    requires src in rec && rec[src].NodeVal? && StrictlySorted(leaving) && StrictlySorted(arriving)
    requires forall e :: e in out <==> !hop.dir.Incoming? && e in g.edges && g.edges[e].src == rec[src].node.id
    requires forall e :: e in inc <==> !hop.dir.Outgoing? && e in g.edges && g.edges[e].dst == rec[src].node.id
    requires forall e :: e in leaving <==> e in out && (hop.relTypes == [] || g.edges[e].relType in hop.relTypes)
    requires forall e :: e in arriving <==> e in inc && (hop.relTypes == [] || g.edges[e].relType in hop.relTypes)
    requires var rows := ExpandRecord(g, rec, src, hop);
             && |rows| == |leaving| + |arriving|
             && RowsBind(g, rec, hop, leaving, true, rows[..|leaving|])
             && RowsBind(g, rec, hop, arriving, false, rows[|leaving|..])
    ensures ExpandedRow(g, rec, src, hop, ExpandRecord(g, rec, src, hop))
  {
    hide RowsBind, ExpandRecord, StrictlySorted;
    assert TakenEdges(g, hop, rec[src].node.id, leaving, arriving);
  }

  lemma BlocksBind(g: Graph, rec: Record, hop: Hop, cur: NodeId, leaving: seq<EdgeId>, arriving: seq<EdgeId>,
                   out: seq<EdgeId>, inc: seq<EdgeId>)
    requires (forall e :: e in out ==> e in g.edges) && (forall e :: e in inc ==> e in g.edges)
    requires RowsBind(g, rec, hop, leaving, true, ExpandEdges(g, rec, hop, cur, EdgesOf(g, out)))
    requires RowsBind(g, rec, hop, arriving, false, ExpandEdges(g, rec, hop, cur, EdgesOf(g, inc)))
    ensures var rows := ExpandEdges(g, rec, hop, cur, EdgesOf(g, out)) + ExpandEdges(g, rec, hop, cur, EdgesOf(g, inc));
            && |rows| == |leaving| + |arriving|
            && RowsBind(g, rec, hop, leaving, true, rows[..|leaving|])
            && RowsBind(g, rec, hop, arriving, false, rows[|leaving|..])
  {
    hide BindsHop, ExpandEdges;
    var a, b := ExpandEdges(g, rec, hop, cur, EdgesOf(g, out)), ExpandEdges(g, rec, hop, cur, EdgesOf(g, inc));
    assert (a + b)[..|leaving|] == a && (a + b)[|leaving|..] == b;
  }

  lemma {:induction false} RowsMean(g: Graph, rows: seq<Record>, src: string, hop: Hop) returns (blocks: seq<seq<Record>>)
    requires GraphOk(g)
    ensures |blocks| == |rows| && ExpandRows(g, rows, src, hop) == Flatten(blocks)
    ensures forall i :: 0 <= i < |rows| ==> ExpandedRow(g, rows[i], src, hop, blocks[i])
    decreases |rows|
  {
    hide ExpandedRow, ExpandRecord, GraphOk;
    blocks := [];
    if rows != [] {
      var before := RowsMean(g, Init(rows), src, hop);
      RecordMeans(g, Last(rows), src, hop);
      blocks := before + [ExpandRecord(g, Last(rows), src, hop)];
      assert Init(blocks) == before;
      forall i | 0 <= i < |rows| ensures ExpandedRow(g, rows[i], src, hop, blocks[i]) {
        assert i < |rows| - 1 ==> rows[i] == Init(rows)[i] && blocks[i] == before[i];
      }
    }
  }

  lemma EdgesOfAppend(g: Graph, a: seq<EdgeId>, b: seq<EdgeId>)
    requires forall e :: e in a ==> e in g.edges
    requires forall e :: e in b ==> e in g.edges
    ensures EdgesOf(g, a + b) == EdgesOf(g, a) + EdgesOf(g, b)
  {
  }

  method EdgesFrom(storage: MemoryStorage, dir: Direction, n: NodeId) returns (es: seq<Edge>)
    requires storage.Valid()
    ensures es == CandidateEdges(storage.View(), dir, n)
  {
    hide MemoryStorage.Valid, EdgesOf;
    EdgesOfAppend(storage.View(), OutIds(storage.View(), n), InIds(storage.View(), n));
    match dir
    case Outgoing => es := storage.OutgoingEdges(n);
    case Incoming => es := storage.IncomingEdges(n);
    case Undirected => es := storage.OutgoingEdges(n) + storage.IncomingEdges(n);
  }

  method ExecuteExpand(storage: MemoryStorage, rows: seq<Record>, src: string, hop: Hop) returns (r: seq<Record>)
    requires storage.Valid()
    ensures r == ExpandRows(storage.View(), rows, src, hop)
    ensures exists blocks: seq<seq<Record>> ::
              && |blocks| == |rows| && r == Flatten(blocks)
              && forall i :: 0 <= i < |rows| ==> ExpandedRow(storage.View(), rows[i], src, hop, blocks[i])
  {
    hide MemoryStorage.Valid, ExpandedRow;
    StorageIsOk(storage);
    r := [];
    for i := 0 to |rows|
      invariant r == ExpandRows(storage.View(), rows[..i], src, hop)
    {
      var rec := rows[i];
      assert Init(rows[..i + 1]) == rows[..i] && Last(rows[..i + 1]) == rec;
      if !(src in rec && rec[src].NodeVal?) {
        continue;
      }
      var cur := rec[src].node.id;
      var es := EdgesFrom(storage, hop.dir, cur);
      var matched: seq<Record> := [];
      for j := 0 to |es|
        invariant matched == ExpandEdges(storage.View(), rec, hop, cur, es[..j])
      {
        assert Init(es[..j + 1]) == es[..j] && Last(es[..j + 1]) == es[j];
        if TypeOk(hop.relTypes, es[j].relType) {
          var dst := storage.GetNode(Far(hop.dir, es[j], cur));
          if dst.Some? {
            matched := matched + [Bind(rec, hop, es[j], dst.value)];
          }
        }
      }
      assert es[..|es|] == es;
      r := r + matched;
    }
    assert rows[..|rows|] == rows;
    ghost var blocks := RowsMean(storage.View(), rows, src, hop);
  }

  // --- Plans ---

  function ScanOf(p: Plan): (s: Plan)
    ensures s.ScanNodes?
  {
    match p
    case ScanNodes(_, _, _) => p
    case Expand(input, _, _, _, _, _) => ScanOf(input)
    case Filter(input, _) => ScanOf(input)
  }

  // What a plan computes once its scan has returned `scanned`; None on error.
  ghost function Run(g: Graph, ctx: Context, p: Plan, scanned: Option<seq<Node>>): Option<seq<Record>> {
    match p
    case ScanNodes(_, _, variable) => if scanned.None? then None else Some(ScanRows(variable, scanned.value))
    case Expand(input, src, relVar, dst, relTypes, dir) =>
      var rows := Run(g, ctx, input, scanned);
      if rows.None? then None else Some(ExpandRows(g, rows.value, src, Hop(relVar, dst, relTypes, dir)))
    case Filter(input, condition) =>
      var rows := Run(g, ctx, input, scanned);
      if rows.None? then None else FilterRows(rows.value, condition, ctx)
  }

  method Execute(storage: MemoryStorage, ctx: Context, p: Plan)
    returns (r: Option<seq<Record>>, ghost scanned: Option<seq<Node>>)
    requires storage.Valid()
    ensures ScanReturns(storage.View(), ctx, ScanOf(p).lab, ScanOf(p).inline, scanned)
    ensures r == Run(storage.View(), ctx, p, scanned)
    decreases p
  {
    hide MemoryStorage.Valid, ScanReturns;
    match p
    case ScanNodes(lab, inline, variable) =>
      var nodes := ExecuteScan(storage, ctx, lab, inline);
      scanned := nodes;
      if nodes.None? {
        return None, scanned;
      }
      var rows: seq<Record> := [];
      for i := 0 to |nodes.value|
        invariant rows == ScanRows(variable, nodes.value[..i])
      {
        rows := rows + [map[variable := NodeVal(nodes.value[i])]];
      }
      assert nodes.value[..|nodes.value|] == nodes.value;
      r := Some(rows);
    case Expand(input, src, relVar, dst, relTypes, dir) =>
      r, scanned := Execute(storage, ctx, input);
      if r.Some? {
        var rows := ExecuteExpand(storage, r.value, src, Hop(relVar, dst, relTypes, dir));
        r := Some(rows);
      }
    case Filter(input, condition) =>
      r, scanned := Execute(storage, ctx, input);
      if r.Some? {
        r := ExecuteFilter(r.value, condition, ctx);
      }
  }
}
