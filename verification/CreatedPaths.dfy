// What CREATE of a path leaves behind: the nodes and relationships of the
// pattern, in order, and a row that shows them.

module CreatedPaths {
  import opened GraphTypes
  import opened Sequences
  import opened AbstractGraph
  import opened ConstraintRules
  import opened Expressions
  import opened Planner
  import opened CreateClauses
  import opened MergeIdempotence

  // --- One path ---

  function PatternAt(start: NodePattern, elements: seq<Element>, i: nat): NodePattern
    requires i <= |elements|
  {
    if i == 0 then start else elements[i - 1].node
  }

  // The relationship `e` stands for the element between the nodes `a` and `b`.
  ghost predicate EdgeMade(h: Graph, e: EdgeId, el: Element, ctx: Context, a: NodeId, b: NodeId) {
    && e in h.edges && h.edges[e].id == e
    && h.edges[e].relType == (if el.rel.relTypes == [] then "" else el.rel.relTypes[0])
    && (if el.rel.dir.Incoming? then h.edges[e].src == b && h.edges[e].dst == a else h.edges[e].src == a && h.edges[e].dst == b)
    && (IsFixed(el.rel.props, ctx) ==> h.edges[e].props == Fixed(el.rel.props, ctx))
  }

  // The node at a place of the pattern: a node made for it, or one the row
  // already held under its name.
  ghost predicate NodeMade(g: Graph, h: Graph, np: NodePattern, ctx: Context, id: NodeId) {
    && g.nextNode <= id && id in h.nodes && h.nodes[id].id == id && h.nodes[id].labels == np.labels
    && (IsFixed(np.props, ctx) ==> h.nodes[id].props == Fixed(np.props, ctx))
  }

  ghost predicate NodeUsed(g: Graph, h: Graph, rec: Record, np: NodePattern, ctx: Context, id: NodeId) {
    if BoundNode(rec, np.variable) then id == rec[np.variable.value].node.id else NodeMade(g, h, np, ctx, id)
  }

  // Nothing of `g` is lost, and only ids from the counters on are new.
  ghost predicate OnlyAdds(g: Graph, h: Graph, edges: nat) {
    && Grows(g, h) && g.nextNode <= h.nextNode && h.nextEdge == g.nextEdge + edges
    && (forall n :: n in h.nodes <==> n in g.nodes || g.nextNode <= n < h.nextNode)
    && (forall e :: e in h.edges <==> e in g.edges || g.nextEdge <= e < h.nextEdge)
  }

  predicate NamedFrom(elements: seq<Element>, k: nat, v: string) {
    exists j :: k <= j < |elements| && (elements[j].rel.variable == Some(v) || elements[j].node.variable == Some(v))
  }

  predicate BindsNode(row: Record, v: Option<string>, id: NodeId) {
    v.Some? ==> v.value in row && row[v.value].NodeVal? && row[v.value].node.id == id
  }

  // Each name shows what it was bound to last, and other columns are unchanged.
  ghost predicate RowShows(h: Graph, first: EdgeId, rec: Record, start: NodePattern, elements: seq<Element>, ids: seq<NodeId>, row: Record)
    requires |ids| == |elements| + 1
  {
    && (start.variable.Some? && !NamedFrom(elements, 0, start.variable.value) ==> BindsNode(row, start.variable, ids[0]))
    && (forall i :: 0 <= i < |elements| ==> ElementShows(h, first, elements, i, ids, row))
    && (forall c :: start.variable != Some(c) && !NamedFrom(elements, 0, c) ==>
          (c in row <==> c in rec) && (c in rec ==> row[c] == rec[c]))
  }

  ghost predicate ElementShows(h: Graph, first: EdgeId, elements: seq<Element>, i: nat, ids: seq<NodeId>, row: Record)
    requires i < |elements| && |ids| == |elements| + 1
  {
    var (r, n) := (elements[i].rel.variable, elements[i].node.variable);
    && (n.Some? && r != n && !NamedFrom(elements, i + 1, n.value) ==> BindsNode(row, n, ids[i + 1]))
    && (r.Some? && !NamedFrom(elements, i + 1, r.value) ==>
          r.value in row && first + i in h.edges && row[r.value] == RelVal(h.edges[first + i]))
  }

  // The row a node of the pattern is placed on, from which its properties come.
  ghost predicate Path(g: Graph, h: Graph, rec: Record, start: NodePattern, elements: seq<Element>, ctx: Context,
                       ids: seq<NodeId>, row: Record)
  {
    && |ids| == |elements| + 1 && OnlyAdds(g, h, |elements|)
    && (forall i :: 0 <= i < |elements| ==> EdgeMade(h, g.nextEdge + i, elements[i], ctx, ids[i], ids[i + 1]))
    && (DistinctNames(start, elements) ==>
          forall i :: 0 <= i <= |elements| ==> NodeUsed(g, h, rec, PatternAt(start, elements, i), ctx, ids[i]))
    && RowShows(h, g.nextEdge, rec, start, elements, ids, row)
  }

  lemma NodePlacedMeans(g: Graph, rec: Record, np: NodePattern, ctx: Context)
    requires GraphOk(g) && NodePlaced(g, rec, np, ctx).at.Some?
    ensures var p := NodePlaced(g, rec, np, ctx);
            var (id, row) := p.at.value;
            && OnlyAdds(g, p.g, 0) && NodeUsed(g, p.g, rec, np, ctx, id) && BindsNode(row, np.variable, id)
            && forall c :: np.variable != Some(c) ==> (c in row <==> c in rec) && (c in rec ==> row[c] == rec[c])
  {
    if IsFixed(np.props, ctx) {
      FixedAnywhere(np.props, rec, ctx);
    }
    hide PatternProps;
  }

  lemma ElementPlacedMeans(g: Graph, prev: NodeId, rec: Record, el: Element, ctx: Context)
    requires GraphOk(g) && ElementPlaced(g, prev, rec, el, ctx).at.Some?
    ensures var p := ElementPlaced(g, prev, rec, el, ctx);
            var (id, row) := p.at.value;
            && OnlyAdds(g, p.g, 1) && NodeUsed(g, p.g, rec, el.node, ctx, id)
            && EdgeMade(p.g, g.nextEdge, el, ctx, prev, id)
            && (el.rel.variable != el.node.variable ==> BindsNode(row, el.node.variable, id))
            && (el.rel.variable.Some? ==> el.rel.variable.value in row && row[el.rel.variable.value] == RelVal(p.g.edges[g.nextEdge]))
            && forall c :: el.rel.variable != Some(c) && el.node.variable != Some(c) ==>
                 (c in row <==> c in rec) && (c in rec ==> row[c] == rec[c])
  {
    hide PatternProps, NodePlaced, IsFixed, Fixed, OnlyAdds, NodeUsed;
    NodePlacedMeans(g, rec, el.node, ctx);
    NodePlacedGrows(g, rec, el.node, ctx);
    var p := NodePlaced(g, rec, el.node, ctx);
    if IsFixed(el.rel.props, ctx) {
      FixedAnywhere(el.rel.props, p.at.value.1, ctx);
    }
    OneEdgeMore(g, p.g, ElementPlaced(g, prev, rec, el, ctx).g, rec, el.node, ctx, p.at.value.0);
  }

  // An edge added under the next id keeps what a node was placed as.
  lemma OneEdgeMore(g: Graph, h: Graph, k: Graph, rec: Record, np: NodePattern, ctx: Context, id: NodeId)
    requires OnlyAdds(g, h, 0) && NodeUsed(g, h, rec, np, ctx, id)
    requires k.nodes == h.nodes && k.nextNode == h.nextNode && k.nextEdge == h.nextEdge + 1
    requires h.nextEdge !in h.edges && h.nextEdge in k.edges && k.edges == h.edges[h.nextEdge := k.edges[h.nextEdge]]
    ensures h.nextEdge == g.nextEdge && OnlyAdds(g, k, 1) && NodeUsed(g, k, rec, np, ctx, id)
  {
    hide IsFixed, Fixed, BoundNode;
  }

  lemma NamedInit(elements: seq<Element>, k: nat, v: string)
    requires elements != []
    ensures NamedFrom(elements, k, v) <==>
            NamedFrom(Init(elements), k, v) ||
            (k < |elements| && (Last(elements).rel.variable == Some(v) || Last(elements).node.variable == Some(v)))
  {
    if NamedFrom(Init(elements), k, v) {
      var j :| k <= j < |Init(elements)| && (Init(elements)[j].rel.variable == Some(v) || Init(elements)[j].node.variable == Some(v));
      assert elements[j] == Init(elements)[j];
    }
    if j :| k <= j < |elements| && (elements[j].rel.variable == Some(v) || elements[j].node.variable == Some(v)) {
      assert j < |elements| - 1 ==> Init(elements)[j] == elements[j];
    }
  }

  // One more element: what the row showed it still shows, unless renamed.
  lemma RowStillShows(h: Graph, k: Graph, first: EdgeId, rec: Record, start: NodePattern, elements: seq<Element>,
                      ids: seq<NodeId>, id: NodeId, before: Record, row: Record)
    requires elements != [] && |ids| == |elements| && Grows(h, k)
    requires RowShows(h, first, rec, start, Init(elements), ids, before)
    requires var el := Last(elements);
             && first + |elements| - 1 in k.edges
             && (el.rel.variable != el.node.variable ==> BindsNode(row, el.node.variable, id))
             && (el.rel.variable.Some? ==>
                   el.rel.variable.value in row && row[el.rel.variable.value] == RelVal(k.edges[first + |elements| - 1]))
             && forall c :: el.rel.variable != Some(c) && el.node.variable != Some(c) ==>
                  (c in row <==> c in before) && (c in before ==> row[c] == before[c])
    ensures RowShows(k, first, rec, start, elements, ids + [id], row)
  {
    hide NamedFrom, Grows, BindsNode, ElementShows;
    var (init, el, all) := (Init(elements), Last(elements), ids + [id]);
    forall v: string ensures NamedFrom(elements, 0, v) <==> NamedFrom(init, 0, v) || el.rel.variable == Some(v) || el.node.variable == Some(v) {
      NamedInit(elements, 0, v);
    }
    if start.variable.Some? && !NamedFrom(elements, 0, start.variable.value) {
      StillBinds(before, row, start.variable, all[0], el);
    }
    forall i | 0 <= i < |elements| ensures ElementShows(k, first, elements, i, all, row) {
      if i < |init| {
        assert ElementShows(h, first, init, i, ids, before);
        ElementStillShows(h, k, first, elements, ids, id, before, row, i);
      } else {
        LastShows(k, first, elements, ids, id, row);
      }
    }
  }

  lemma StillBinds(before: Record, row: Record, v: Option<string>, id: NodeId, el: Element)
    requires v.Some? && el.rel.variable != v && el.node.variable != v && BindsNode(before, v, id)
    requires forall c :: el.rel.variable != Some(c) && el.node.variable != Some(c) ==>
               (c in row <==> c in before) && (c in before ==> row[c] == before[c])
    ensures BindsNode(row, v, id)
  {
  }

  lemma ElementStillShows(h: Graph, k: Graph, first: EdgeId, elements: seq<Element>, ids: seq<NodeId>, id: NodeId,
                          before: Record, row: Record, i: nat)
    requires |ids| == |elements| && i < |elements| - 1 && Grows(h, k)
    requires ElementShows(h, first, Init(elements), i, ids, before)
    requires var el := Last(elements);
             forall c :: el.rel.variable != Some(c) && el.node.variable != Some(c) ==>
               (c in row <==> c in before) && (c in before ==> row[c] == before[c])
    ensures ElementShows(k, first, elements, i, ids + [id], row)
  {
    hide NamedFrom;
    var (r, n) := (elements[i].rel.variable, elements[i].node.variable);
    assert Init(elements)[i] == elements[i] && (ids + [id])[i + 1] == ids[i + 1];
    if n.Some? { NamedInit(elements, i + 1, n.value); }
    if r.Some? { NamedInit(elements, i + 1, r.value); }
  }

  lemma LastShows(k: Graph, first: EdgeId, elements: seq<Element>, ids: seq<NodeId>, id: NodeId, row: Record)
    requires elements != [] && |ids| == |elements|
    requires var el := Last(elements);
             && first + |elements| - 1 in k.edges
             && (el.rel.variable != el.node.variable ==> BindsNode(row, el.node.variable, id))
             && (el.rel.variable.Some? ==>
                   el.rel.variable.value in row && row[el.rel.variable.value] == RelVal(k.edges[first + |elements| - 1]))
    ensures ElementShows(k, first, elements, |elements| - 1, ids + [id], row)
  {
  }

  lemma {:induction false} PathMeans(g: Graph, rec: Record, start: NodePattern, elements: seq<Element>, ctx: Context)
    returns (ids: seq<NodeId>)
    requires GraphOk(g) && ChainPlaced(g, rec, start, elements, ctx).at.Some?
    ensures var p := ChainPlaced(g, rec, start, elements, ctx);
            Path(g, p.g, rec, start, elements, ctx, ids, p.at.value.1) && p.at.value.0 == Last(ids)
    decreases |elements|
  {
    hide NodePlaced, ElementPlaced, GraphOk, RowShows, EdgeMade, NodeUsed, DistinctNames, OnlyAdds;
    var p := ChainPlaced(g, rec, start, elements, ctx);
    var (at, row) := p.at.value;
    if elements == [] {
      ids := [at];
      NodePlacedMeans(g, rec, start, ctx);
      NodeShows(g, p.g, rec, start, at, row);
    } else {
      var (init, el) := (Init(elements), Last(elements));
      var q := ChainPlaced(g, rec, start, init, ctx);
      var (prev, before) := q.at.value;
      var done := PathMeans(g, rec, start, init, ctx);
      ChainPlacedGrows(g, rec, start, init, ctx);
      ElementPlacedMeans(q.g, prev, before, el, ctx);
      ids := done + [at];
      AddsMore(g, q.g, p.g, |init|);
      StillMade(g, q.g, p.g, rec, start, elements, ctx, done, at, before);
      RowStillShows(q.g, p.g, g.nextEdge, rec, start, elements, done, at, before, row);
      assert Last(done) == prev;
      assert EdgeMade(p.g, g.nextEdge + |init|, el, ctx, ids[|init|], ids[|init| + 1]);
    }
  }

  lemma NodeShows(g: Graph, h: Graph, rec: Record, start: NodePattern, at: NodeId, row: Record)
    requires BindsNode(row, start.variable, at)
    requires forall c :: start.variable != Some(c) ==> (c in row <==> c in rec) && (c in rec ==> row[c] == rec[c])
    ensures RowShows(h, g.nextEdge, rec, start, [], [at], row)
  {
  }

  lemma AddsMore(g: Graph, h: Graph, k: Graph, edges: nat)
    requires OnlyAdds(g, h, edges) && OnlyAdds(h, k, 1)
    ensures OnlyAdds(g, k, edges + 1) && Grows(h, k) && h.nextEdge == g.nextEdge + edges && g.nextEdge + edges in k.edges
  {
  }

  lemma StillMade(g: Graph, h: Graph, k: Graph, rec: Record, start: NodePattern, elements: seq<Element>, ctx: Context,
                  ids: seq<NodeId>, at: NodeId, before: Record)
    requires elements != [] && Path(g, h, rec, start, Init(elements), ctx, ids, before) && Grows(h, k)
    requires OnlyAdds(h, k, 1) && NodeUsed(h, k, before, Last(elements).node, ctx, at)
    requires ChainPlaced(g, rec, start, Init(elements), ctx).at.Some?
    requires before == ChainPlaced(g, rec, start, Init(elements), ctx).at.value.1
    ensures forall i :: 0 <= i < |elements| - 1 ==> EdgeMade(k, g.nextEdge + i, elements[i], ctx, (ids + [at])[i], (ids + [at])[i + 1])
    ensures DistinctNames(start, elements) ==>
              forall i :: 0 <= i <= |elements| ==> NodeUsed(g, k, rec, PatternAt(start, elements, i), ctx, (ids + [at])[i])
  {
    hide RowShows, ChainPlaced, IsFixed;
    var init := Init(elements);
    forall i | 0 <= i < |init| ensures EdgeMade(k, g.nextEdge + i, elements[i], ctx, (ids + [at])[i], (ids + [at])[i + 1]) {
      assert EdgeMade(h, g.nextEdge + i, init[i], ctx, ids[i], ids[i + 1]);
    }
    if DistinctNames(start, elements) {
      NamesOfInit(start, elements);
      forall i | 0 <= i <= |elements| ensures NodeUsed(g, k, rec, PatternAt(start, elements, i), ctx, (ids + [at])[i]) {
        if i < |elements| {
          assert PatternAt(start, elements, i) == PatternAt(start, init, i);
          assert NodeUsed(g, h, rec, PatternAt(start, init, i), ctx, ids[i]);
        } else {
          LastIsBoundAlike(g, rec, start, elements, ctx);
        }
      }
    }
  }

  lemma NamesOfInit(start: NodePattern, elements: seq<Element>)
    requires elements != [] && DistinctNames(start, elements)
    ensures DistinctNames(start, Init(elements))
  {
    forall i | 0 <= i < |Init(elements)| ensures Init(elements)[i] == elements[i] && Init(elements)[..i] == elements[..i] {}
  }

  lemma LastIsBoundAlike(g: Graph, rec: Record, start: NodePattern, elements: seq<Element>, ctx: Context)
    requires elements != [] && DistinctNames(start, elements) && ChainPlaced(g, rec, start, Init(elements), ctx).at.Some?
    ensures var (before, np) := (ChainPlaced(g, rec, start, Init(elements), ctx).at.value.1, Last(elements).node);
            && (BoundNode(before, np.variable) <==> BoundNode(rec, np.variable))
            && (BoundNode(rec, np.variable) ==> before[np.variable.value].node.id == rec[np.variable.value].node.id)
  {
    hide ChainPlaced;
    var np := Last(elements).node;
    if np.variable.Some? {
      assert Apart(start, elements[..|elements| - 1], np.variable.value);
      ApartKept(g, rec, start, Init(elements), ctx, np.variable.value);
    }
  }

  // --- Rows and clauses ---

  // What one row and one operation make: a node that passed the checks, or a path.
  ghost predicate RowMade(g: Graph, h: Graph, rules: Rules, rec: Record, op: CreateOp, ctx: Context, row: Record) {
    match op
    case MakePath(start, elements) => exists ids :: Path(g, h, rec, start, elements, ctx, ids, row)
    case MakeNode(np) =>
      exists props ::
        && Resolves(EntriesOf(np.props), rec, ctx, props) && Accepts(rules, g.nodes, np.labels, props)
        && h.nodes == g.nodes[g.nextNode := Node(g.nextNode, np.labels, props)] && h.nextNode == g.nextNode + 1
        && h.edges == g.edges && h.nextEdge == g.nextEdge
        && (np.variable.Some? ==> np.variable.value in row && row[np.variable.value] == NodeVal(Node(g.nextNode, np.labels, props)))
        && SameBut(rec, row, if np.variable.Some? then {np.variable.value} else {})
  }

  lemma NodeCreatedMeans(g: Graph, rules: Rules, rec: Record, np: NodePattern, ctx: Context)
    requires NodeCreated(g, rules, rec, np, ctx).1.Some?
    ensures var (h, row) := NodeCreated(g, rules, rec, np, ctx);
            RowMade(g, h, rules, rec, MakeNode(np), ctx, row.value)
  {
    hide Accepts, Resolves;
    ResolvedMeans(EntriesOf(np.props), rec, ctx);
    var props := PatternProps(np.props, rec, ctx).value;
    assert Resolves(EntriesOf(np.props), rec, ctx, props);
  }

  lemma RowCreatedMeans(g: Graph, rules: Rules, rec: Record, op: CreateOp, ctx: Context)
    requires GraphOk(g) && RowCreated(g, rules, rec, op, ctx).1.Some?
    ensures var (h, row) := RowCreated(g, rules, rec, op, ctx); GraphOk(h) && RowMade(g, h, rules, rec, op, ctx, row.value)
  {
    match op
    case MakePath(start, elements) =>
      hide ChainPlaced, Path, GraphOk;
      var (h, row) := RowCreated(g, rules, rec, op, ctx);
      ChainPlacedGrows(g, rec, start, elements, ctx);
      var ids := PathMeans(g, rec, start, elements, ctx);
      assert Path(g, h, rec, start, elements, ctx, ids, row.value);
    case MakeNode(np) =>
      hide RowMade, Accepts, PatternProps;
      NodeCreatedMeans(g, rules, rec, np, ctx);
  }

  // The rows are made one after another, each on the graph the one before left.
  ghost predicate RowsMade(gs: seq<Graph>, rules: Rules, rows: seq<Record>, op: CreateOp, ctx: Context, out: seq<Record>) {
    && |gs| == |rows| + 1 && |out| == |rows|
    && forall i :: 0 <= i < |rows| ==> StepMade(gs, rules, rows, op, ctx, out, i)
  }

  ghost predicate StepMade(gs: seq<Graph>, rules: Rules, rows: seq<Record>, op: CreateOp, ctx: Context, out: seq<Record>, i: nat)
    requires i < |rows| == |out| && |gs| == |rows| + 1
  {
    RowMade(gs[i], gs[i + 1], rules, rows[i], op, ctx, out[i])
  }

  lemma {:induction false} RowsCreatedMean(g: Graph, rules: Rules, rows: seq<Record>, op: CreateOp, ctx: Context)
    returns (gs: seq<Graph>)
    requires GraphOk(g) && RowsCreated(g, rules, rows, op, ctx).1.Some?
    ensures var (h, out) := RowsCreated(g, rules, rows, op, ctx);
            && GraphOk(h) && RowsMade(gs, rules, rows, op, ctx, out.value) && gs[0] == g && Last(gs) == h
    decreases |rows|
  {
    hide RowCreated, RowMade, GraphOk;
    if rows == [] {
      gs := [g];
    } else {
      var (k, done) := RowsCreated(g, rules, Init(rows), op, ctx);
      var (h, out) := RowsCreated(g, rules, rows, op, ctx);
      var before := RowsCreatedMean(g, rules, Init(rows), op, ctx);
      RowCreatedMeans(k, rules, Last(rows), op, ctx);
      gs := before + [h];
      forall i | 0 <= i < |rows| ensures StepMade(gs, rules, rows, op, ctx, out.value, i) {
        if i < |rows| - 1 {
          assert StepMade(before, rules, Init(rows), op, ctx, done.value, i);
        }
      }
    }
  }

  // A clause: each operation over the rows the one before it left, or over one
  // empty row when there are none.
  ghost predicate ClauseMade(gs: seq<Graph>, rowss: seq<seq<Record>>, rules: Rules, ops: seq<CreateOp>, ctx: Context) {
    && |gs| == |rowss| == |ops| + 1
    && forall i :: 0 <= i < |ops| ==> OpMade(gs, rowss, rules, ops, ctx, i)
  }

  ghost predicate OpMade(gs: seq<Graph>, rowss: seq<seq<Record>>, rules: Rules, ops: seq<CreateOp>, ctx: Context, i: nat)
    requires i < |ops| && |gs| == |rowss| == |ops| + 1
  {
    exists steps :: RowsMade(steps, rules, if rowss[i] == [] then [map[]] else rowss[i], ops[i], ctx, rowss[i + 1])
                 && steps[0] == gs[i] && Last(steps) == gs[i + 1]
  }

  lemma {:induction false} ClauseMeans(g: Graph, rules: Rules, ops: seq<CreateOp>, rows: seq<Record>, ctx: Context)
    returns (gs: seq<Graph>, rowss: seq<seq<Record>>)
    requires GraphOk(g) && AllCreated(g, rules, ops, rows, ctx).1.Some?
    ensures var (h, out) := AllCreated(g, rules, ops, rows, ctx);
            && GraphOk(h) && ClauseMade(gs, rowss, rules, ops, ctx)
            && gs[0] == g && Last(gs) == h && rowss[0] == rows && Last(rowss) == out.value
    decreases |ops|
  {
    hide RowsCreated, RowsMade, GraphOk;
    if ops == [] {
      gs, rowss := [g], [rows];
    } else {
      var (k, done) := AllCreated(g, rules, Init(ops), rows, ctx);
      var (h, out) := AllCreated(g, rules, ops, rows, ctx);
      var before, past := ClauseMeans(g, rules, Init(ops), rows, ctx);
      var steps := RowsCreatedMean(k, rules, BaseRows(done.value), Last(ops), ctx);
      gs, rowss := before + [h], past + [out.value];
      forall i | 0 <= i < |ops| ensures OpMade(gs, rowss, rules, ops, ctx, i) {
        if i < |ops| - 1 {
          assert OpMade(before, past, rules, Init(ops), ctx, i);
        } else {
          assert RowsMade(steps, rules, if rowss[i] == [] then [map[]] else rowss[i], ops[i], ctx, rowss[i + 1]);
        }
      }
    }
  }
}
