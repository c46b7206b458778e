// Chain MERGE is match-or-create: what the create branch makes, the match
// branch then finds, and a clause run again creates nothing.

module MergeIdempotence {
  import opened GraphTypes
  import opened Sequences
  import opened AbstractGraph
  import opened NodeLookup
  import opened Trails
  import opened Expressions
  import opened Planner
  import opened MatchExecution
  import opened CreateClauses
  import opened ChainMerge
  import MatchChain
  import MergeProbe

  // --- Patterns whose properties do not depend on the row ---

  predicate ConstantEntries(props: Option<seq<Entry>>) {
    forall i :: 0 <= i < |EntriesOf(props)| ==> IsConstant(EntriesOf(props)[i].value)
  }

  lemma {:induction false} ConstantInline(entries: seq<Entry>)
    requires forall i :: 0 <= i < |entries| ==> IsConstant(entries[i].value)
    ensures forall i :: 0 <= i < |Inline(entries)| ==> IsConstant(Inline(entries)[i].1)
  {
    if entries != [] {
      ConstantInline(entries[1..]);
    }
  }

  lemma {:induction false} ResolvedAnywhere(inline: InlineProps, a: Record, b: Record, ctx: Context, acc: Props)
    requires forall i :: 0 <= i < |inline| ==> IsConstant(inline[i].1)
    ensures Resolved(inline, a, ctx, acc) == Resolved(inline, b, ctx, acc)
    decreases |inline|
  {
    if inline != [] {
      ConstantEval(inline[0].1, a, ctx);
      ConstantEval(inline[0].1, b, ctx);
      var v := Eval(inline[0].1, a, ctx);
      if v.Some? && AsScalar(v.value).Some? {
        ResolvedAnywhere(inline[1..], a, b, ctx, acc[inline[0].0 := AsScalar(v.value).value]);
      }
    }
  }

  // The properties of a fixed pattern part: constant, and none of them an error.
  predicate IsFixed(props: Option<seq<Entry>>, ctx: Context) {
    ConstantEntries(props) && PatternProps(props, map[], ctx).Some?
  }

  function Fixed(props: Option<seq<Entry>>, ctx: Context): Props
    requires IsFixed(props, ctx)
  {
    PatternProps(props, map[], ctx).value
  }

  lemma FixedAnywhere(props: Option<seq<Entry>>, rec: Record, ctx: Context)
    requires IsFixed(props, ctx)
    ensures PatternProps(props, rec, ctx) == Some(Fixed(props, ctx))
  {
    ConstantInline(EntriesOf(props));
    ResolvedAnywhere(Inline(EntriesOf(props)), rec, map[], ctx, map[]);
  }

  predicate FixedElement(el: Element, ctx: Context) {
    IsFixed(el.rel.props, ctx) && IsFixed(el.node.props, ctx)
  }

  predicate FixedPattern(start: NodePattern, elements: seq<Element>, ctx: Context) {
    IsFixed(start.props, ctx) && forall i :: 0 <= i < |elements| ==> FixedElement(elements[i], ctx)
  }

  // --- Names ---

  // `v` is not bound by the pattern.
  predicate Apart(start: NodePattern, elements: seq<Element>, v: string) {
    && start.variable != Some(v)
    && forall i :: 0 <= i < |elements| ==> elements[i].rel.variable != Some(v) && elements[i].node.variable != Some(v)
  }

  // No node variable is bound twice, and none is also a relationship variable.
  predicate DistinctNames(start: NodePattern, elements: seq<Element>) {
    forall i :: 0 <= i < |elements| && elements[i].node.variable.Some? ==>
      && Apart(start, elements[..i], elements[i].node.variable.value)
      && elements[i].rel.variable != elements[i].node.variable
  }

  function BoundAt(rec: Record, v: string): Option<NodeId> {
    BoundId(rec, Some(v))
  }

  ghost predicate Agree(a: Record, b: Record) {
    forall v: string :: BoundAt(a, v) == BoundAt(b, v)
  }

  // Node variables of the row are bound to live nodes.
  ghost predicate LiveBindings(g: Graph, rec: Record) {
    forall v: string :: BoundAt(rec, v).Some? ==> BoundAt(rec, v).value in g.nodes
  }

  // --- When a row is idempotent ---

  predicate ElementWithoutNaN(el: Element, ctx: Context)
    requires FixedElement(el, ctx)
  {
    NoNaN(Fixed(el.rel.props, ctx)) && NoNaN(Fixed(el.node.props, ctx))
  }

  predicate BoundFits(g: Graph, rec: Record, el: Element, ctx: Context)
    requires FixedElement(el, ctx)
  {
    var id := BoundId(rec, el.node.variable);
    id.Some? ==> id.value in g.nodes && NodeFits(g.nodes[id.value], el.node.labels, Fixed(el.node.props, ctx))
  }

  predicate StartFits(rec: Record, start: NodePattern, ctx: Context)
    requires IsFixed(start.props, ctx)
  {
    && NoNaN(Fixed(start.props, ctx))
    && (BoundNode(rec, start.variable) ==> NodeFits(rec[start.variable.value].node, start.labels, Fixed(start.props, ctx)))
  }

  // No required value is a NaN, and every bound node fits its part of the pattern.
  predicate RowFits(g: Graph, rec: Record, start: NodePattern, elements: seq<Element>, ctx: Context)
    requires FixedPattern(start, elements, ctx)
  {
    && StartFits(rec, start, ctx)
    && forall i :: 0 <= i < |elements| ==> ElementWithoutNaN(elements[i], ctx) && BoundFits(g, rec, elements[i], ctx)
  }

  // --- What creation leaves behind ---

  ghost predicate Grows(g: Graph, h: Graph) {
    && (forall n :: n in g.nodes ==> n in h.nodes && h.nodes[n] == g.nodes[n])
    && (forall e :: e in g.edges ==> e in h.edges && h.edges[e] == g.edges[e])
  }

  lemma NodePlacedGrows(g: Graph, rec: Record, np: NodePattern, ctx: Context)
    requires GraphOk(g)
    ensures var p := NodePlaced(g, rec, np, ctx); GraphOk(p.g) && Grows(g, p.g)
  {
    hide PatternProps;
  }

  lemma ElementPlacedGrows(g: Graph, prev: NodeId, rec: Record, el: Element, ctx: Context)
    requires GraphOk(g)
    ensures var p := ElementPlaced(g, prev, rec, el, ctx); GraphOk(p.g) && Grows(g, p.g)
  {
    hide PatternProps, NodePlaced;
    NodePlacedGrows(g, rec, el.node, ctx);
  }

  lemma {:induction false} ChainPlacedGrows(g: Graph, rec: Record, start: NodePattern, elements: seq<Element>, ctx: Context)
    requires GraphOk(g)
    ensures var p := ChainPlaced(g, rec, start, elements, ctx); GraphOk(p.g) && Grows(g, p.g)
    decreases |elements|
  {
    hide NodePlaced, ElementPlaced, GraphOk;
    if elements == [] {
      NodePlacedGrows(g, rec, start, ctx);
    } else {
      ChainPlacedGrows(g, rec, start, Init(elements), ctx);
      var p := ChainPlaced(g, rec, start, Init(elements), ctx);
      if p.at.Some? {
        ElementPlacedGrows(p.g, p.at.value.0, p.at.value.1, Last(elements), ctx);
      }
    }
  }

  // Names the pattern does not bind keep their binding while it is created.
  lemma {:induction false} ApartKept(g: Graph, rec: Record, start: NodePattern, elements: seq<Element>, ctx: Context, v: string)
    requires Apart(start, elements, v) && ChainPlaced(g, rec, start, elements, ctx).at.Some?
    ensures BoundAt(ChainPlaced(g, rec, start, elements, ctx).at.value.1, v) == BoundAt(rec, v)
    decreases |elements|
  {
    hide PatternProps;
    if elements != [] {
      ApartKept(g, rec, start, Init(elements), ctx, v);
      var (p, el) := (ChainPlaced(g, rec, start, Init(elements), ctx), Last(elements));
      assert el.rel.variable != Some(v) && el.node.variable != Some(v);
      hide ChainPlaced;
      ElementKeepsApart(p.g, p.at.value.0, p.at.value.1, el, ctx, v);
    }
  }

  lemma ElementKeepsApart(g: Graph, prev: NodeId, rec: Record, el: Element, ctx: Context, v: string)
    requires ElementPlaced(g, prev, rec, el, ctx).at.Some?
    requires el.rel.variable != Some(v) && el.node.variable != Some(v)
    ensures BoundAt(ElementPlaced(g, prev, rec, el, ctx).at.value.1, v) == BoundAt(rec, v)
  {
    hide PatternProps;
  }

  // --- Every walk of the match branch ---

  lemma ExpandedIs(g: Graph, el: Element, c: Candidate, ctx: Context)
    requires FixedElement(el, ctx)
    ensures Expanded(g, el, c, ctx) ==
            Some(Through(g, el, c, Fixed(el.rel.props, ctx), Fixed(el.node.props, ctx),
                         EdgesFor(g, el.rel, c.at, BoundId(c.rec, el.node.variable))))
  {
    FixedAnywhere(el.rel.props, c.rec, ctx);
    FixedAnywhere(el.node.props, c.rec, ctx);
  }

  lemma {:induction false} ThroughHas(g: Graph, el: Element, c: Candidate, relProps: Props, nodeProps: Props, es: seq<Edge>, e: Edge)
    requires e in es && Passes(g, el, c.at, BoundId(c.rec, el.node.variable), relProps, nodeProps, e)
    ensures Advanced(g, c.rec, el, c.at, e) in Through(g, el, c, relProps, nodeProps, es)
    decreases |es|
  {
    hide Passes, Advanced;
    if e != Last(es) {
      assert es == Init(es) + [Last(es)];
      ThroughHas(g, el, c, relProps, nodeProps, Init(es), e);
    }
  }

  lemma {:induction false} ThroughOnly(g: Graph, el: Element, c: Candidate, relProps: Props, nodeProps: Props, es: seq<Edge>, d: Candidate)
    returns (e: Edge)
    requires d in Through(g, el, c, relProps, nodeProps, es)
    ensures e in es && Passes(g, el, c.at, BoundId(c.rec, el.node.variable), relProps, nodeProps, e)
    ensures d == Advanced(g, c.rec, el, c.at, e)
    decreases |es|
  {
    hide Passes, Advanced;
    assert es == Init(es) + [Last(es)];
    if d in Through(g, el, c, relProps, nodeProps, Init(es)) {
      e := ThroughOnly(g, el, c, relProps, nodeProps, Init(es), d);
    } else {
      e := Last(es);
    }
  }

  lemma {:induction false} ExpandedAllSucceeds(g: Graph, el: Element, cs: seq<Candidate>, ctx: Context)
    requires FixedElement(el, ctx)
    ensures ExpandedAll(g, el, cs, ctx).Some?
    decreases |cs|
  {
    hide Expanded;
    if cs != [] {
      ExpandedIs(g, el, Last(cs), ctx);
      ExpandedAllSucceeds(g, el, Init(cs), ctx);
    }
  }

  lemma {:induction false} ExpandedAllHas(g: Graph, el: Element, cs: seq<Candidate>, ctx: Context, c: Candidate, d: Candidate)
    requires FixedElement(el, ctx) && c in cs && Expanded(g, el, c, ctx).Some? && d in Expanded(g, el, c, ctx).value
    ensures ExpandedAll(g, el, cs, ctx).Some? && d in ExpandedAll(g, el, cs, ctx).value
    decreases |cs|
  {
    hide Expanded, FixedElement;
    ExpandedAllSucceeds(g, el, cs, ctx);
    assert cs == Init(cs) + [Last(cs)];
    if c != Last(cs) {
      ExpandedAllHas(g, el, Init(cs), ctx, c, d);
    }
  }

  lemma {:induction false} ExpandedAllOnly(g: Graph, el: Element, cs: seq<Candidate>, ctx: Context, d: Candidate) returns (c: Candidate)
    requires FixedElement(el, ctx) && ExpandedAll(g, el, cs, ctx).Some? && d in ExpandedAll(g, el, cs, ctx).value
    ensures c in cs && Expanded(g, el, c, ctx).Some? && d in Expanded(g, el, c, ctx).value
    decreases |cs|
  {
    hide Expanded, FixedElement;
    if d in Expanded(g, el, Last(cs), ctx).value {
      c := Last(cs);
    } else {
      c := ExpandedAllOnly(g, el, Init(cs), ctx, d);
    }
  }

  lemma {:induction false} WalkSucceeds(g: Graph, elements: seq<Element>, seeds: seq<Candidate>, ctx: Context)
    requires forall i :: 0 <= i < |elements| ==> FixedElement(elements[i], ctx)
    ensures Walked(g, elements, seeds, ctx).Some?
    decreases |elements|
  {
    hide FixedElement;
    if elements != [] {
      WalkSucceeds(g, Init(elements), seeds, ctx);
      ExpandedAllSucceeds(g, Last(elements), Walked(g, Init(elements), seeds, ctx).value, ctx);
    }
  }

  lemma SeedsAre(rec: Record, start: NodePattern, ctx: Context, found: seq<Node>)
    requires IsFixed(start.props, ctx)
    ensures Seeds(rec, start, ctx, found) ==
            Some(if BoundNode(rec, start.variable) then
                   if NodeFits(rec[start.variable.value].node, start.labels, Fixed(start.props, ctx))
                   then [Candidate(rec, rec[start.variable.value].node.id)] else []
                 else Started(rec, start, found))
  {
    FixedAnywhere(start.props, rec, ctx);
  }

  // --- A created chain is found ---

  lemma MatchesItself(labels: seq<string>, props: Props, n: Node)
    requires NoNaN(props) && n.labels == labels && n.props == props
    ensures NodeFits(n, labels, props) && PropsMatch(props, props)
  {
  }

  lemma EdgesForHas(g: Graph, rel: RelPattern, prev: NodeId, bound: Option<NodeId>, e: Edge)
    requires GraphOk(g) && e.id in g.edges && g.edges[e.id] == e
    requires TypeOk(rel.relTypes, e.relType) && Leaves(rel.dir, e, prev)
    requires bound.Some? ==> bound.value == Far(rel.dir, e, prev)
    ensures e in EdgesFor(g, rel, prev, bound)
  {
    MatchChain.CandidateEdgeCount(g, rel.dir, prev, e);
    assert multiset(CandidateEdges(g, rel.dir, prev))[e] > 0;
    if bound.Some? && rel.relTypes != [] {
      MergeProbe.ProbeCount(g, rel, prev, bound.value, e);
      Positive(multiset(rel.relTypes)[e.relType], multiset(CandidateEdges(g, rel.dir, prev))[e]);
      assert multiset(EdgesFor(g, rel, prev, bound))[e] > 0;
    }
  }

  lemma Positive(a: nat, b: nat)
    requires a > 0 && b > 0
    ensures Times(a, b) > 0
  {
  }

  // The edge an element creates, and the node it leads to.
  lemma ElementEdge(g: Graph, prev: NodeId, rec: Record, el: Element, ctx: Context) returns (e: Edge)
    requires GraphOk(g) && FixedElement(el, ctx)
    requires ElementPlaced(g, prev, rec, el, ctx).at.Some?
    ensures var q := ElementPlaced(g, prev, rec, el, ctx);
            && e.id in q.g.edges && q.g.edges[e.id] == e
            && e.relType == CreatedType(el.rel) && e.props == Fixed(el.rel.props, ctx)
            && Leaves(el.rel.dir, e, prev) && Far(el.rel.dir, e, prev) == q.at.value.0
            && q.at.value.0 in q.g.nodes
            && q.at.value.1 == BindIf(NodePlaced(g, rec, el.node, ctx).at.value.1, el.rel.variable, RelVal(e))
            && NodePlaced(g, rec, el.node, ctx).at == Some((q.at.value.0, NodePlaced(g, rec, el.node, ctx).at.value.1))
  {
    hide PatternProps, NodePlaced;
    var p := NodePlaced(g, rec, el.node, ctx);
    var (dst, rec1) := p.at.value;
    FixedAnywhere(el.rel.props, rec1, ctx);
    var (src, tgt) := if el.rel.dir.Incoming? then (dst, prev) else (prev, dst);
    e := Edge(p.g.nextEdge, CreatedType(el.rel), src, tgt, Fixed(el.rel.props, ctx));
  }

  // The node an element ends at: the bound one, or a new one that fits.
  lemma PlacedNode(g: Graph, rec: Record, np: NodePattern, ctx: Context)
    requires GraphOk(g) && IsFixed(np.props, ctx) && NodePlaced(g, rec, np, ctx).at.Some?
    ensures var p := NodePlaced(g, rec, np, ctx);
            if BoundNode(rec, np.variable) then p.at == Some((BoundId(rec, np.variable).value, rec)) && p.g == g
            else
              var n := Node(g.nextNode, np.labels, Fixed(np.props, ctx));
              && n.id in p.g.nodes && p.g.nodes[n.id] == n
              && p.at == Some((n.id, BindIf(rec, np.variable, NodeVal(n))))
  {
    FixedAnywhere(np.props, rec, ctx);
  }

  lemma CreatedEdgePasses(g: Graph, h: Graph, prev: NodeId, rec: Record, c: Candidate, el: Element, ctx: Context, e: Edge)
    requires GraphOk(g) && GraphOk(h) && FixedElement(el, ctx) && ElementWithoutNaN(el, ctx)
    requires ElementPlaced(g, prev, rec, el, ctx).at.Some? && Grows(ElementPlaced(g, prev, rec, el, ctx).g, h)
    requires c.at == prev && Agree(c.rec, rec) && BoundFits(h, rec, el, ctx)
    requires e.relType == CreatedType(el.rel) && e.props == Fixed(el.rel.props, ctx)
    requires Far(el.rel.dir, e, prev) == ElementPlaced(g, prev, rec, el, ctx).at.value.0
    requires ElementPlaced(g, prev, rec, el, ctx).at.value.0 in ElementPlaced(g, prev, rec, el, ctx).g.nodes
    requires NodePlaced(g, rec, el.node, ctx).at.Some?
    requires NodePlaced(g, rec, el.node, ctx).at.value.0 == ElementPlaced(g, prev, rec, el, ctx).at.value.0
    ensures Passes(h, el, prev, BoundId(c.rec, el.node.variable), Fixed(el.rel.props, ctx), Fixed(el.node.props, ctx), e)
  {
    var q := ElementPlaced(g, prev, rec, el, ctx);
    var dst := q.at.value.0;
    PlacedNode(g, rec, el.node, ctx);
    NodeStays(g, prev, rec, el, ctx);
    assert BoundId(c.rec, el.node.variable) == BoundId(rec, el.node.variable) by {
      if el.node.variable.Some? {
        assert BoundAt(c.rec, el.node.variable.value) == BoundAt(rec, el.node.variable.value);
      }
    }
    hide PatternProps, ElementPlaced, NodePlaced, NodeFits, PropsMatch, Agree, GraphOk;
    MatchesItself([], Fixed(el.rel.props, ctx), Node(0, [], Fixed(el.rel.props, ctx)));
    MatchesItself(el.node.labels, Fixed(el.node.props, ctx), Node(dst, el.node.labels, Fixed(el.node.props, ctx)));
    assert dst in h.nodes;
  }

  // Adding the edge leaves the nodes as placed.
  lemma NodeStays(g: Graph, prev: NodeId, rec: Record, el: Element, ctx: Context)
    requires ElementPlaced(g, prev, rec, el, ctx).at.Some?
    ensures ElementPlaced(g, prev, rec, el, ctx).g.nodes == NodePlaced(g, rec, el.node, ctx).g.nodes
  {
    hide PatternProps, NodePlaced;
  }

  lemma RecordsAgree(h: Graph, rec: Record, c: Candidate, el: Element, e: Edge, dst: NodeId, rec1: Record)
    requires Agree(c.rec, rec) && dst in h.nodes && h.nodes[dst].id == dst && Far(el.rel.dir, e, c.at) == dst
    requires if BoundNode(rec, el.node.variable) then rec1 == rec && BoundId(rec, el.node.variable) == Some(dst)
             else exists n: Node :: n.id == dst && rec1 == BindIf(rec, el.node.variable, NodeVal(n))
    requires el.rel.variable.None? || el.rel.variable != el.node.variable
    ensures Agree(Advanced(h, c.rec, el, c.at, e).rec, BindIf(rec1, el.rel.variable, RelVal(e)))
  {
    var (a, b) := (Advanced(h, c.rec, el, c.at, e).rec, BindIf(rec1, el.rel.variable, RelVal(e)));
    forall v ensures BoundAt(a, v) == BoundAt(b, v) {
      assert BoundAt(c.rec, v) == BoundAt(rec, v);
    }
  }

  // From a candidate that follows the creation so far, the walk goes on along
  // what the next element created.
  lemma CreatedElementIsFound(g: Graph, h: Graph, prev: NodeId, rec: Record, c: Candidate, el: Element, ctx: Context)
    returns (d: Candidate)
    requires GraphOk(g) && GraphOk(h) && FixedElement(el, ctx) && ElementWithoutNaN(el, ctx)
    requires ElementPlaced(g, prev, rec, el, ctx).at.Some? && Grows(ElementPlaced(g, prev, rec, el, ctx).g, h)
    requires c.at == prev && Agree(c.rec, rec) && BoundFits(h, rec, el, ctx)
    requires el.rel.variable.None? || el.rel.variable != el.node.variable
    ensures Expanded(h, el, c, ctx).Some? && d in Expanded(h, el, c, ctx).value
    ensures d.at == ElementPlaced(g, prev, rec, el, ctx).at.value.0
    ensures Agree(d.rec, ElementPlaced(g, prev, rec, el, ctx).at.value.1)
  {
    hide PatternProps, ElementPlaced, NodePlaced, NodeFits, PropsMatch, Agree, Expanded, EdgesFor, Through, Passes, BoundFits, ElementWithoutNaN;
    hide Leaves, Far, IsFixed;
    var q := ElementPlaced(g, prev, rec, el, ctx);
    var e := ElementEdge(g, prev, rec, el, ctx);
    var dst := q.at.value.0;
    CreatedEdgePasses(g, h, prev, rec, c, el, ctx, e);
    var bound := BoundId(c.rec, el.node.variable);
    PassesMeans(h, el, prev, bound, Fixed(el.rel.props, ctx), Fixed(el.node.props, ctx), e);
    EdgesForHas(h, el.rel, prev, bound, e);
    ThroughHas(h, el, c, Fixed(el.rel.props, ctx), Fixed(el.node.props, ctx), EdgesFor(h, el.rel, prev, bound), e);
    ExpandedIs(h, el, c, ctx);
    d := Advanced(h, c.rec, el, prev, e);
    NodeOfElement(g, rec, el, ctx, dst);
    RecordsAgree(h, rec, c, el, e, dst, NodePlaced(g, rec, el.node, ctx).at.value.1);
  }

  lemma PassesMeans(g: Graph, el: Element, prev: NodeId, bound: Option<NodeId>, relProps: Props, nodeProps: Props, e: Edge)
    requires Passes(g, el, prev, bound, relProps, nodeProps, e)
    ensures TypeOk(el.rel.relTypes, e.relType) && (bound.Some? ==> bound.value == Far(el.rel.dir, e, prev))
    ensures Far(el.rel.dir, e, prev) in g.nodes
  {
  }

  lemma NodeOfElement(g: Graph, rec: Record, el: Element, ctx: Context, dst: NodeId)
    requires GraphOk(g) && FixedElement(el, ctx) && NodePlaced(g, rec, el.node, ctx).at.Some?
    requires NodePlaced(g, rec, el.node, ctx).at.value.0 == dst
    ensures var rec1 := NodePlaced(g, rec, el.node, ctx).at.value.1;
            if BoundNode(rec, el.node.variable) then rec1 == rec && BoundId(rec, el.node.variable) == Some(dst)
            else exists n: Node :: n.id == dst && rec1 == BindIf(rec, el.node.variable, NodeVal(n))
  {
    PlacedNode(g, rec, el.node, ctx);
  }

  // --- The start ---

  lemma StartIsFound(g: Graph, h: Graph, rec: Record, start: NodePattern, ctx: Context, found: seq<Node>) returns (c: Candidate)
    requires GraphOk(g) && IsFixed(start.props, ctx) && StartFits(rec, start, ctx)
    requires Grows(NodePlaced(g, rec, start, ctx).g, h) && StartFound(h, rec, start, ctx, found)
    ensures NodePlaced(g, rec, start, ctx).at.Some?
    ensures Seeds(rec, start, ctx, found).Some? && c in Seeds(rec, start, ctx, found).value
    ensures c.at == NodePlaced(g, rec, start, ctx).at.value.0
    ensures Agree(c.rec, NodePlaced(g, rec, start, ctx).at.value.1)
  {
    SeedsAre(rec, start, ctx, found);
    FixedAnywhere(start.props, rec, ctx);
    PlacedNode(g, rec, start, ctx);
    hide PatternProps;
    if BoundNode(rec, start.variable) {
      c := Candidate(rec, rec[start.variable.value].node.id);
    } else {
      var n := Node(g.nextNode, start.labels, Fixed(start.props, ctx));
      NewNodeIsFound(h, start.labels, Fixed(start.props, ctx), n, IdsOf(found));
      var i :| 0 <= i < |found| && IdsOf(found)[i] == n.id;
      assert found[i] == n;
      c := Started(rec, start, found)[i];
    }
  }

  lemma NewNodeIsFound(h: Graph, labels: seq<string>, props: Props, n: Node, ids: seq<NodeId>)
    requires n.id in h.nodes && h.nodes[n.id] == n && n.labels == labels && n.props == props && NoNaN(props)
    requires Finds(h, labels, props, ids)
    ensures n.id in ids
  {
    FindsMeans(h, labels, props, ids);
    assert n.id in FindSet(h, labels, props);
  }

  // Every candidate of a walk keeps the names the pattern does not bind.
  lemma {:induction false} WalkKeepsApart(h: Graph, rec: Record, start: NodePattern, elements: seq<Element>, ctx: Context,
                                          found: seq<Node>, v: string, c: Candidate)
    requires FixedPattern(start, elements, ctx) && Apart(start, elements, v)
    requires Matches(h, rec, start, elements, ctx, found).Some? && c in Matches(h, rec, start, elements, ctx, found).value
    ensures BoundAt(c.rec, v) == BoundAt(rec, v)
    decreases |elements|
  {
    SeedsAre(rec, start, ctx, found);
    var seeds := Seeds(rec, start, ctx, found).value;
    if elements == [] {
      if !BoundNode(rec, start.variable) {
        var i :| 0 <= i < |seeds| && seeds[i] == c;
      }
    } else {
      var el := Last(elements);
      WalkSucceeds(h, Init(elements), seeds, ctx);
      var before := Walked(h, Init(elements), seeds, ctx).value;
      assert before != [];
      var b := ExpandedAllOnly(h, el, before, ctx, c);
      var e := ExpandedOnly(h, el, b, ctx, c);
      hide Walked, Seeds, ExpandedAll, Expanded, FixedPattern;
      WalkKeepsApartInit(start, elements, ctx, v);
      WalkKeepsApart(h, rec, start, Init(elements), ctx, found, v, b);
    }
  }

  lemma WalkKeepsApartInit(start: NodePattern, elements: seq<Element>, ctx: Context, v: string)
    requires FixedPattern(start, elements, ctx) && Apart(start, elements, v) && elements != []
    ensures FixedPattern(start, Init(elements), ctx) && Apart(start, Init(elements), v)
    ensures Last(elements).rel.variable != Some(v) && Last(elements).node.variable != Some(v)
  {
    hide FixedElement;
  }

  lemma ExpandedOnly(h: Graph, el: Element, b: Candidate, ctx: Context, c: Candidate) returns (e: Edge)
    requires FixedElement(el, ctx) && Expanded(h, el, b, ctx).Some? && c in Expanded(h, el, b, ctx).value
    ensures Passes(h, el, b.at, BoundId(b.rec, el.node.variable), Fixed(el.rel.props, ctx), Fixed(el.node.props, ctx), e)
    ensures c == Advanced(h, b.rec, el, b.at, e)
  {
    hide IsFixed, Passes;
    ExpandedIs(h, el, b, ctx);
    e := ThroughOnly(h, el, b, Fixed(el.rel.props, ctx), Fixed(el.node.props, ctx),
                     EdgesFor(h, el.rel, b.at, BoundId(b.rec, el.node.variable)), c);
  }

  // --- Match-or-create on one row ---

  lemma PrefixFits(g: Graph, rec: Record, start: NodePattern, elements: seq<Element>, ctx: Context)
    requires elements != [] && FixedPattern(start, elements, ctx) && DistinctNames(start, elements)
    ensures FixedPattern(start, Init(elements), ctx) && DistinctNames(start, Init(elements))
    ensures FixedElement(Last(elements), ctx)
    ensures RowFits(g, rec, start, elements, ctx) <==>
              && RowFits(g, rec, start, Init(elements), ctx)
              && ElementWithoutNaN(Last(elements), ctx) && BoundFits(g, rec, Last(elements), ctx)
    ensures Last(elements).node.variable.Some? ==>
              && Apart(start, Init(elements), Last(elements).node.variable.value)
              && Last(elements).rel.variable != Last(elements).node.variable
  {
    hide IsFixed, ElementWithoutNaN, BoundFits, StartFits, Apart;
    var (init, n) := (Init(elements), |elements| - 1);
    forall i | 0 <= i < n ensures init[..i] == elements[..i] && init[i] == elements[i] {}
    assert elements[..n] == init && elements[n] == Last(elements);
  }

  lemma BoundFitsLater(g: Graph, h: Graph, rec: Record, rec2: Record, el: Element, ctx: Context)
    requires FixedElement(el, ctx) && Grows(g, h) && LiveBindings(g, rec)
    requires BoundId(rec2, el.node.variable) == BoundId(rec, el.node.variable)
    ensures BoundFits(g, rec, el, ctx) <==> BoundFits(h, rec2, el, ctx)
  {
    hide NodeFits, IsFixed;
    if el.node.variable.Some? {
      assert BoundAt(rec, el.node.variable.value) == BoundId(rec, el.node.variable);
    }
  }

  lemma GrowsTransitive(g: Graph, h: Graph, k: Graph)
    requires Grows(g, h) && Grows(h, k)
    ensures Grows(g, k)
  {
  }

  // The walk over the graph with the chain in it follows the creation.
  lemma {:induction false} CreatedIsFound(g: Graph, h: Graph, rec: Record, start: NodePattern, elements: seq<Element>, ctx: Context,
                                          found: seq<Node>) returns (c: Candidate)
    requires GraphOk(g) && GraphOk(h) && LiveBindings(g, rec)
    requires FixedPattern(start, elements, ctx) && DistinctNames(start, elements) && RowFits(g, rec, start, elements, ctx)
    requires ChainPlaced(g, rec, start, elements, ctx).at.Some? && Grows(ChainPlaced(g, rec, start, elements, ctx).g, h)
    requires StartFound(h, rec, start, ctx, found)
    ensures Matches(h, rec, start, elements, ctx, found).Some? && c in Matches(h, rec, start, elements, ctx, found).value
    ensures c.at == ChainPlaced(g, rec, start, elements, ctx).at.value.0
    ensures Agree(c.rec, ChainPlaced(g, rec, start, elements, ctx).at.value.1)
    decreases |elements|
  {
    if elements == [] {
      hide GraphOk, NodePlaced, StartFound, LiveBindings, StartFits, Grows, Agree, IsFixed, Seeds;
      c := StartIsFound(g, h, rec, start, ctx, found);
    } else {
      hide GraphOk, NodePlaced, ElementPlaced, StartFound, LiveBindings, Grows, Agree, Seeds, Matches, RowFits, FixedPattern, DistinctNames, BoundFits, ElementWithoutNaN, Apart;
      var (init, el) := (Init(elements), Last(elements));
      var p := ChainPlaced(g, rec, start, init, ctx);
      PrefixFits(g, rec, start, elements, ctx);
      ChainPlacedGrows(g, rec, start, init, ctx);
      ElementPlacedGrows(p.g, p.at.value.0, p.at.value.1, el, ctx);
      GrowsTransitive(p.g, ChainPlaced(g, rec, start, elements, ctx).g, h);
      GrowsTransitive(g, p.g, h);
      var b := CreatedIsFound(g, h, rec, start, init, ctx, found);
      if el.node.variable.Some? {
        ApartKept(g, rec, start, init, ctx, el.node.variable.value);
      }
      BoundFitsLater(g, h, rec, p.at.value.1, el, ctx);
      c := CreatedElementIsFound(p.g, h, p.at.value.0, p.at.value.1, b, el, ctx);
      MatchesStep(h, rec, start, elements, ctx, found);
      ExpandedAllHas(h, el, Matches(h, rec, start, init, ctx, found).value, ctx, b, c);
    }
  }

  lemma MatchesStep(h: Graph, rec: Record, start: NodePattern, elements: seq<Element>, ctx: Context, found: seq<Node>)
    requires elements != [] && FixedPattern(start, elements, ctx)
    ensures Matches(h, rec, start, elements, ctx, found).Some? && Matches(h, rec, start, Init(elements), ctx, found).Some?
    ensures var before := Matches(h, rec, start, Init(elements), ctx, found).value;
            Matches(h, rec, start, elements, ctx, found) ==
            if before == [] then Some([]) else ExpandedAll(h, Last(elements), before, ctx)
  {
    hide FixedElement, ExpandedAll;
    SeedsAre(rec, start, ctx, found);
    WalkSucceeds(h, Init(elements), Seeds(rec, start, ctx, found).value, ctx);
    WalkSucceeds(h, elements, Seeds(rec, start, ctx, found).value, ctx);
  }

  lemma SeedsFit(h: Graph, rec: Record, start: NodePattern, ctx: Context, found: seq<Node>)
    requires IsFixed(start.props, ctx) && StartFound(h, rec, start, ctx, found)
    requires Seeds(rec, start, ctx, found) != Some([])
    ensures StartFits(rec, start, ctx)
  {
    SeedsAre(rec, start, ctx, found);
    FixedAnywhere(start.props, rec, ctx);
    hide PatternProps;
    if !BoundNode(rec, start.variable) {
      FindsMeans(h, start.labels, Fixed(start.props, ctx), IdsOf(found));
      assert IdsOf(found)[0] in IdsOf(found);
    }
  }

  lemma PassesFit(h: Graph, el: Element, prev: NodeId, rec: Record, ctx: Context, e: Edge)
    requires FixedElement(el, ctx)
    requires Passes(h, el, prev, BoundId(rec, el.node.variable), Fixed(el.rel.props, ctx), Fixed(el.node.props, ctx), e)
    ensures ElementWithoutNaN(el, ctx) && BoundFits(h, rec, el, ctx)
  {
    hide IsFixed;
  }

  // A walk that gets through shows that the row fits.
  lemma {:induction false} FoundFits(g: Graph, h: Graph, rec: Record, start: NodePattern, elements: seq<Element>, ctx: Context, found: seq<Node>)
    requires LiveBindings(g, rec) && Grows(g, h)
    requires FixedPattern(start, elements, ctx) && DistinctNames(start, elements)
    requires StartFound(h, rec, start, ctx, found)
    requires Matches(h, rec, start, elements, ctx, found) != Some([])
    ensures RowFits(g, rec, start, elements, ctx)
    decreases |elements|
  {
    if elements == [] {
      SeedsFit(h, rec, start, ctx, found);
    } else {
      hide StartFound, LiveBindings, Grows, Agree, Seeds, Matches, RowFits, FixedPattern, DistinctNames, BoundFits, ElementWithoutNaN, Apart, Passes, Expanded, ExpandedAll;
      var (init, el) := (Init(elements), Last(elements));
      PrefixFits(g, rec, start, elements, ctx);
      MatchesStep(h, rec, start, elements, ctx, found);
      FoundFits(g, h, rec, start, init, ctx, found);
      var before := Matches(h, rec, start, init, ctx, found).value;
      var c := Matches(h, rec, start, elements, ctx, found).value[0];
      var b := ExpandedAllOnly(h, el, before, ctx, c);
      var e := ExpandedOnly(h, el, b, ctx, c);
      PassesFit(h, el, b.at, b.rec, ctx, e);
      if el.node.variable.Some? {
        WalkKeepsApart(h, rec, start, init, ctx, found, el.node.variable.value, b);
      }
      BoundFitsLater(g, h, rec, b.rec, el, ctx);
    }
  }

  // A row whose chain was just created takes the match branch when it is
  // merged again exactly when the row fits the pattern and the pattern has no NaN.
  lemma CreateThenMatch(g: Graph, rec: Record, start: NodePattern, elements: seq<Element>, ctx: Context, found: seq<Node>)
    requires GraphOk(g) && LiveBindings(g, rec)
    requires FixedPattern(start, elements, ctx) && DistinctNames(start, elements)
    requires ChainPlaced(g, rec, start, elements, ctx).at.Some?
    requires StartFound(ChainPlaced(g, rec, start, elements, ctx).g, rec, start, ctx, found)
    ensures var h := ChainPlaced(g, rec, start, elements, ctx).g;
            && Matches(h, rec, start, elements, ctx, found).Some?
            && (RowFits(g, rec, start, elements, ctx) <==> Matches(h, rec, start, elements, ctx, found).value != [])
            && (RowFits(g, rec, start, elements, ctx) ==> RowChainMerged(h, rec, start, elements, ctx, found).0 == h)
  {
    hide RowFits, DistinctNames, StartFound, LiveBindings, GraphOk, Grows, ChainPlaced, Walked, FixedElement;
    var h := ChainPlaced(g, rec, start, elements, ctx).g;
    ChainPlacedGrows(g, rec, start, elements, ctx);
    GrowsItself(h);
    SeedsAre(rec, start, ctx, found);
    WalkSucceeds(h, elements, Seeds(rec, start, ctx, found).value, ctx);
    if RowFits(g, rec, start, elements, ctx) {
      var c := CreatedIsFound(g, h, rec, start, elements, ctx, found);
    }
    if Matches(h, rec, start, elements, ctx, found).value != [] {
      FoundFits(g, h, rec, start, elements, ctx, found);
    }
  }

  lemma GrowsItself(g: Graph)
    ensures Grows(g, g)
  {
  }

  // --- A clause run again ---

  lemma EdgesForOnly(g: Graph, rel: RelPattern, prev: NodeId, bound: Option<NodeId>, e: Edge)
    requires GraphOk(g) && e in EdgesFor(g, rel, prev, bound)
    ensures e.id in g.edges && g.edges[e.id] == e && Leaves(rel.dir, e, prev)
  {
    assert multiset(EdgesFor(g, rel, prev, bound))[e] > 0;
    MatchChain.CandidateEdgeCount(g, rel.dir, prev, e);
    if bound.Some? && rel.relTypes != [] {
      MergeProbe.ProbeCount(g, rel, prev, bound.value, e);
      if multiset(CandidateEdges(g, rel.dir, prev))[e] == 0 {
        TimesZeroRight(multiset(rel.relTypes)[e.relType]);
        assert false;
      }
    }
  }

  lemma TimesZeroRight(a: nat)
    ensures Times(a, 0) == 0
  {
  }

  lemma SeedPersists(g: Graph, h: Graph, rec: Record, start: NodePattern, ctx: Context, found: seq<Node>, found2: seq<Node>, c: Candidate)
    requires Grows(g, h) && IsFixed(start.props, ctx) && AllExact(Fixed(start.props, ctx))
    requires StartFound(g, rec, start, ctx, found) && StartFound(h, rec, start, ctx, found2)
    requires Seeds(rec, start, ctx, found).Some? && c in Seeds(rec, start, ctx, found).value
    ensures Seeds(rec, start, ctx, found2).Some? && c in Seeds(rec, start, ctx, found2).value
  {
    SeedsAre(rec, start, ctx, found);
    SeedsAre(rec, start, ctx, found2);
    FixedAnywhere(start.props, rec, ctx);
    hide PatternProps;
    if !BoundNode(rec, start.variable) {
      var i :| 0 <= i < |found| && Started(rec, start, found)[i] == c;
      var n := found[i];
      FoundAgain(g, h, start.labels, Fixed(start.props, ctx), IdsOf(found), IdsOf(found2), i);
      var j :| 0 <= j < |found2| && IdsOf(found2)[j] == n.id;
      assert found2[j] == n && Started(rec, start, found2)[j] == c;
    }
  }

  lemma FoundAgain(g: Graph, h: Graph, labels: seq<string>, props: Props, ids: seq<NodeId>, ids2: seq<NodeId>, i: nat)
    requires Grows(g, h) && AllExact(props) && i < |ids|
    requires Finds(g, labels, props, ids) && Finds(h, labels, props, ids2)
    ensures ids[i] in ids2
  {
    FindsMeans(g, labels, props, ids);
    FindsMeans(h, labels, props, ids2);
    assert ids[i] in ids;
    assert ids[i] in FindSet(g, labels, props);
    assert ids[i] in FindSet(h, labels, props);
  }

  lemma StepPersists(g: Graph, h: Graph, el: Element, b: Candidate, ctx: Context, c: Candidate)
    requires GraphOk(g) && GraphOk(h) && Grows(g, h) && FixedElement(el, ctx)
    requires Expanded(g, el, b, ctx).Some? && c in Expanded(g, el, b, ctx).value
    ensures Expanded(h, el, b, ctx).Some? && c in Expanded(h, el, b, ctx).value
  {
    hide IsFixed, GraphOk, EdgesFor, NodeFits, PropsMatch, Leaves;
    var (relProps, nodeProps, bound) := (Fixed(el.rel.props, ctx), Fixed(el.node.props, ctx), BoundId(b.rec, el.node.variable));
    ExpandedIs(g, el, b, ctx);
    ExpandedIs(h, el, b, ctx);
    var e := ThroughOnly(g, el, b, relProps, nodeProps, EdgesFor(g, el.rel, b.at, bound), c);
    EdgesForOnly(g, el.rel, b.at, bound, e);
    EdgesForHas(h, el.rel, b.at, bound, e);
    ThroughHas(h, el, b, relProps, nodeProps, EdgesFor(h, el.rel, b.at, bound), e);
  }

  // A match stays a match while the graph grows.
  lemma {:induction false} MatchPersists(g: Graph, h: Graph, rec: Record, start: NodePattern, elements: seq<Element>, ctx: Context,
                                         found: seq<Node>, found2: seq<Node>, c: Candidate)
    requires GraphOk(g) && GraphOk(h) && Grows(g, h)
    requires FixedPattern(start, elements, ctx) && AllExact(Fixed(start.props, ctx))
    requires StartFound(g, rec, start, ctx, found) && StartFound(h, rec, start, ctx, found2)
    requires Matches(g, rec, start, elements, ctx, found).Some? && c in Matches(g, rec, start, elements, ctx, found).value
    ensures Matches(h, rec, start, elements, ctx, found2).Some? && c in Matches(h, rec, start, elements, ctx, found2).value
    decreases |elements|
  {
    if elements == [] {
      hide StartFound, Grows, Seeds, GraphOk;
      SeedPersists(g, h, rec, start, ctx, found, found2, c);
    } else {
      hide StartFound, Grows, Seeds, Matches, GraphOk, Expanded, ExpandedAll, AllExact;
      var (init, el) := (Init(elements), Last(elements));
      MatchesStep(g, rec, start, elements, ctx, found);
      MatchesStep(h, rec, start, elements, ctx, found2);
      var b := ExpandedAllOnly(g, el, Matches(g, rec, start, init, ctx, found).value, ctx, c);
      MatchPersists(g, h, rec, start, init, ctx, found, found2, b);
      StepPersists(g, h, el, b, ctx, c);
      ExpandedAllHas(h, el, Matches(h, rec, start, init, ctx, found2).value, ctx, b, c);
    }
  }

  ghost predicate RowsFit(g: Graph, recs: seq<Record>, start: NodePattern, elements: seq<Element>, ctx: Context)
    requires FixedPattern(start, elements, ctx)
  {
    forall i :: 0 <= i < |recs| ==> LiveBindings(g, recs[i]) && RowFits(g, recs[i], start, elements, ctx)
  }

  // Whatever the storage finds at its start, the row has a match on `g`.
  ghost predicate HasMatch(g: Graph, rec: Record, start: NodePattern, elements: seq<Element>, ctx: Context) {
    forall found :: StartFound(g, rec, start, ctx, found) ==>
      Matches(g, rec, start, elements, ctx, found).Some? && Matches(g, rec, start, elements, ctx, found).value != []
  }

  lemma HasMatchLater(g: Graph, h: Graph, rec: Record, start: NodePattern, elements: seq<Element>, ctx: Context, found: seq<Node>)
    requires GraphOk(g) && GraphOk(h) && Grows(g, h)
    requires FixedPattern(start, elements, ctx) && AllExact(Fixed(start.props, ctx))
    requires StartFound(g, rec, start, ctx, found)
    requires Matches(g, rec, start, elements, ctx, found).Some? && Matches(g, rec, start, elements, ctx, found).value != []
    ensures HasMatch(h, rec, start, elements, ctx)
  {
    hide GraphOk, Grows, FixedPattern, AllExact, StartFound, Matches;
    var c := Matches(g, rec, start, elements, ctx, found).value[0];
    forall found2 | StartFound(h, rec, start, ctx, found2)
      ensures Matches(h, rec, start, elements, ctx, found2).Some? && Matches(h, rec, start, elements, ctx, found2).value != []
    {
      MatchPersists(g, h, rec, start, elements, ctx, found, found2, c);
    }
  }

  lemma FitsLater(g: Graph, h: Graph, rec: Record, start: NodePattern, elements: seq<Element>, ctx: Context)
    requires FixedPattern(start, elements, ctx) && Grows(g, h) && LiveBindings(g, rec)
    ensures LiveBindings(h, rec)
    ensures RowFits(g, rec, start, elements, ctx) ==> RowFits(h, rec, start, elements, ctx)
  {
    hide BoundFits, ElementWithoutNaN, StartFits, IsFixed;
    forall i | 0 <= i < |elements| ensures BoundFits(g, rec, elements[i], ctx) <==> BoundFits(h, rec, elements[i], ctx) {
      BoundFitsLater(g, h, rec, rec, elements[i], ctx);
    }
  }

  // One row of the first run: afterwards it has a match.
  lemma RowThenMatch(g: Graph, rec: Record, start: NodePattern, elements: seq<Element>, ctx: Context, found: seq<Node>)
    requires GraphOk(g) && LiveBindings(g, rec) && FixedPattern(start, elements, ctx) && DistinctNames(start, elements)
    requires AllExact(Fixed(start.props, ctx)) && RowFits(g, rec, start, elements, ctx)
    requires StartFound(g, rec, start, ctx, found)
    requires RowChainMerged(g, rec, start, elements, ctx, found).1.Some?
    ensures var h := RowChainMerged(g, rec, start, elements, ctx, found).0;
            GraphOk(h) && Grows(g, h) && HasMatch(h, rec, start, elements, ctx)
  {
    hide GraphOk, Grows, LiveBindings, FixedPattern, DistinctNames, AllExact, RowFits, StartFound, Matches, ChainPlaced;
    var h := RowChainMerged(g, rec, start, elements, ctx, found).0;
    ChainPlacedGrows(g, rec, start, elements, ctx);
    GrowsItself(g);
    if Matches(g, rec, start, elements, ctx, found).value != [] {
      HasMatchLater(g, g, rec, start, elements, ctx, found);
    } else {
      forall found2 | StartFound(h, rec, start, ctx, found2)
        ensures Matches(h, rec, start, elements, ctx, found2).Some? && Matches(h, rec, start, elements, ctx, found2).value != []
      {
        CreateThenMatch(g, rec, start, elements, ctx, found2);
      }
    }
  }

  // The storage always finds something it may find.
  lemma SomethingIsFound(g: Graph, rec: Record, start: NodePattern, ctx: Context) returns (found: seq<Node>)
    requires GraphOk(g)
    ensures StartFound(g, rec, start, ctx, found)
  {
    var props := PatternProps(start.props, rec, ctx);
    if props.None? || BoundNode(rec, start.variable) {
      found := [];
    } else {
      var ids := SomeAnswer(g, start.labels, props.value);
      FindsMeans(g, start.labels, props.value, ids);
      found := NodesAt(g, ids);
      assert IdsOf(found) == ids;
    }
  }

  ghost function NodesAt(g: Graph, ids: seq<NodeId>): (r: seq<Node>)
    requires GraphOk(g) && forall i :: i in ids ==> i in g.nodes
    ensures |r| == |ids| && forall i :: 0 <= i < |ids| ==> ids[i] in g.nodes && r[i] == g.nodes[ids[i]] && r[i].id == ids[i]
  {
    assert forall i :: 0 <= i < |ids| ==> ids[i] in ids;
    seq(|ids|, i requires 0 <= i < |ids| => g.nodes[ids[i]])
  }

  lemma HasMatchStays(g: Graph, h: Graph, rec: Record, start: NodePattern, elements: seq<Element>, ctx: Context)
    requires GraphOk(g) && GraphOk(h) && Grows(g, h)
    requires FixedPattern(start, elements, ctx) && AllExact(Fixed(start.props, ctx))
    requires HasMatch(g, rec, start, elements, ctx)
    ensures HasMatch(h, rec, start, elements, ctx)
  {
    hide GraphOk, Grows, FixedPattern, AllExact, StartFound, Matches;
    var found := SomethingIsFound(g, rec, start, ctx);
    HasMatchLater(g, h, rec, start, elements, ctx, found);
  }

  // After the first run every row has a match.
  lemma {:induction false} RunThenMatch(g: Graph, recs: seq<Record>, start: NodePattern, elements: seq<Element>, ctx: Context,
                                        found: seq<seq<Node>>)
    requires GraphOk(g) && FixedPattern(start, elements, ctx) && DistinctNames(start, elements)
    requires AllExact(Fixed(start.props, ctx)) && RowsFit(g, recs, start, elements, ctx)
    requires |found| == |recs| && StartsFound(g, recs, start, elements, ctx, found)
    requires ChainRun(g, recs, start, elements, ctx, found).1.Some?
    ensures var h := ChainRun(g, recs, start, elements, ctx, found).0;
            && GraphOk(h) && Grows(g, h)
            && forall i :: 0 <= i < |recs| ==> HasMatch(h, recs[i], start, elements, ctx)
    decreases |recs|
  {
    hide GraphOk, Grows, LiveBindings, FixedPattern, DistinctNames, AllExact, RowFits, StartFound, RowChainMerged, HasMatch;
    if recs == [] {
      GrowsItself(g);
    } else {
      var (init, rec) := (Init(recs), Last(recs));
      var k := ChainRun(g, init, start, elements, ctx, Init(found)).0;
      var h := ChainRun(g, recs, start, elements, ctx, found).0;
      RunThenMatch(g, init, start, elements, ctx, Init(found));
      FitsLater(g, k, rec, start, elements, ctx);
      RowThenMatch(k, rec, start, elements, ctx, Last(found));
      GrowsTransitive(g, k, h);
      forall i | 0 <= i < |init| ensures HasMatch(h, recs[i], start, elements, ctx) {
        assert init[i] == recs[i];
        HasMatchStays(k, h, recs[i], start, elements, ctx);
      }
    }
  }

  lemma {:induction false} AllMatchRun(h: Graph, recs: seq<Record>, start: NodePattern, elements: seq<Element>, ctx: Context,
                                       again: seq<seq<Node>>)
    requires |again| == |recs| && StartsFound(h, recs, start, elements, ctx, again)
    requires forall i :: 0 <= i < |recs| ==> HasMatch(h, recs[i], start, elements, ctx)
    ensures ChainRun(h, recs, start, elements, ctx, again).0 == h && ChainRun(h, recs, start, elements, ctx, again).1.Some?
    decreases |recs|
  {
    if recs != [] {
      hide StartFound, Matches;
      assert forall i :: 0 <= i < |recs| - 1 ==> Init(recs)[i] == recs[i];
      AllMatchRun(h, Init(recs), start, elements, ctx, Init(again));
      assert HasMatch(h, recs[|recs| - 1], start, elements, ctx);
    }
  }

  // Creating a chain creates relationships, one or more.
  lemma {:induction false} ChainAddsEdges(g: Graph, rec: Record, start: NodePattern, elements: seq<Element>, ctx: Context)
    ensures var p := ChainPlaced(g, rec, start, elements, ctx);
            && g.nextEdge <= p.g.nextEdge
            && (p.at.Some? ==> g.nextEdge + |elements| == p.g.nextEdge)
    decreases |elements|
  {
    hide PatternProps;
    if elements != [] {
      ChainAddsEdges(g, rec, start, Init(elements), ctx);
    }
  }

  lemma RowAddsEdges(g: Graph, rec: Record, start: NodePattern, elements: seq<Element>, ctx: Context, found: seq<Node>)
    ensures var (h, r) := RowChainMerged(g, rec, start, elements, ctx, found);
            && g.nextEdge <= h.nextEdge
            && (r.Some? && elements != [] && h.nextEdge == g.nextEdge ==>
                  h == g && Matches(g, rec, start, elements, ctx, found) != Some([]))
  {
    hide Matches, ChainPlaced;
    ChainAddsEdges(g, rec, start, elements, ctx);
  }

  lemma {:induction false} RunAddsEdges(g: Graph, recs: seq<Record>, start: NodePattern, elements: seq<Element>, ctx: Context,
                                        found: seq<seq<Node>>)
    requires |found| == |recs|
    ensures g.nextEdge <= ChainRun(g, recs, start, elements, ctx, found).0.nextEdge
    decreases |recs|
  {
    hide RowChainMerged;
    if recs != [] {
      RunAddsEdges(g, Init(recs), start, elements, ctx, Init(found));
      var h := ChainRun(g, Init(recs), start, elements, ctx, Init(found)).0;
      RowAddsEdges(h, Last(recs), start, elements, ctx, Last(found));
    }
  }

  // A run that changes nothing matched every row.
  lemma {:induction false} IdleRunMatches(h: Graph, recs: seq<Record>, start: NodePattern, elements: seq<Element>, ctx: Context,
                                          again: seq<seq<Node>>)
    requires |again| == |recs| && StartsFound(h, recs, start, elements, ctx, again) && elements != []
    requires ChainRun(h, recs, start, elements, ctx, again).0 == h && ChainRun(h, recs, start, elements, ctx, again).1.Some?
    ensures forall i :: 0 <= i < |recs| ==>
              && StartFound(h, recs[i], start, ctx, again[i])
              && Matches(h, recs[i], start, elements, ctx, again[i]) != Some([])
    decreases |recs|
  {
    hide RowChainMerged, StartFound, Matches;
    if recs != [] {
      var (init, before) := (Init(recs), Init(again));
      var k := ChainRun(h, init, start, elements, ctx, before).0;
      RunAddsEdges(h, init, start, elements, ctx, before);
      RowAddsEdges(k, Last(recs), start, elements, ctx, Last(again));
      assert ChainRun(h, init, start, elements, ctx, before).1.Some?;
      var row := RowChainMerged(k, Last(recs), start, elements, ctx, Last(again));
      assert row.0 == h && row.1.Some?;
      assert StartFound(k, Last(recs), start, ctx, Last(again)) && k == h;
      IdleRunMatches(h, init, start, elements, ctx, before);
      forall i | 0 <= i < |recs|
        ensures StartFound(h, recs[i], start, ctx, again[i]) && Matches(h, recs[i], start, elements, ctx, again[i]) != Some([])
      {
        if i < |init| {
          assert init[i] == recs[i] && before[i] == again[i];
        }
      }
    }
  }

  lemma {:induction false} RunGrows(g: Graph, recs: seq<Record>, start: NodePattern, elements: seq<Element>, ctx: Context,
                                    found: seq<seq<Node>>)
    requires GraphOk(g) && |found| == |recs|
    ensures var h := ChainRun(g, recs, start, elements, ctx, found).0; GraphOk(h) && Grows(g, h)
    decreases |recs|
  {
    hide GraphOk, Grows, Matches, ChainPlaced;
    GrowsItself(g);
    if recs != [] {
      var k := ChainRun(g, Init(recs), start, elements, ctx, Init(found)).0;
      var h := ChainRun(g, recs, start, elements, ctx, found).0;
      RunGrows(g, Init(recs), start, elements, ctx, Init(found));
      ChainPlacedGrows(k, Last(recs), start, elements, ctx);
      GrowsItself(k);
      assert Grows(k, h);
      GrowsTransitive(g, k, h);
    }
  }

  ghost predicate RowsLive(g: Graph, recs: seq<Record>) {
    forall i :: 0 <= i < |recs| ==> LiveBindings(g, recs[i])
  }

  // A chain MERGE that ran over its rows creates nothing when it is run again
  // exactly when every row fits the pattern and the pattern has no NaN: the
  // pattern's properties constant, its names distinct, no zero float looked up
  // at its start.
  lemma RerunCreatesNothing(g: Graph, recs: seq<Record>, start: NodePattern, elements: seq<Element>, ctx: Context,
                            found: seq<seq<Node>>, again: seq<seq<Node>>)
    requires GraphOk(g) && FixedPattern(start, elements, ctx) && DistinctNames(start, elements) && elements != []
    requires NoZero(Fixed(start.props, ctx)) && RowsLive(g, recs)
    requires |found| == |recs| && StartsFound(g, recs, start, elements, ctx, found)
    requires ChainRun(g, recs, start, elements, ctx, found).1.Some?
    requires |again| == |recs|
    requires StartsFound(ChainRun(g, recs, start, elements, ctx, found).0, recs, start, elements, ctx, again)
    ensures var h := ChainRun(g, recs, start, elements, ctx, found).0;
            RowsFit(g, recs, start, elements, ctx) <==>
            ChainRun(h, recs, start, elements, ctx, again).0 == h && ChainRun(h, recs, start, elements, ctx, again).1.Some?
  {
    hide GraphOk, Grows, FixedPattern, DistinctNames, AllExact, RowFits, LiveBindings, StartsFound, ChainRun, HasMatch, Matches, StartFound;
    var h := ChainRun(g, recs, start, elements, ctx, found).0;
    if RowsFit(g, recs, start, elements, ctx) {
      if recs != [] {
        FitHasNoNaN(g, recs[0], start, elements, ctx);
        RunThenMatch(g, recs, start, elements, ctx, found);
      }
      AllMatchRun(h, recs, start, elements, ctx, again);
    }
    if ChainRun(h, recs, start, elements, ctx, again).0 == h && ChainRun(h, recs, start, elements, ctx, again).1.Some? {
      RunGrows(g, recs, start, elements, ctx, found);
      IdleRunMatches(h, recs, start, elements, ctx, again);
      forall i | 0 <= i < |recs| ensures RowFits(g, recs[i], start, elements, ctx) {
        FoundFits(g, h, recs[i], start, elements, ctx, again[i]);
      }
    }
  }

  lemma FitHasNoNaN(g: Graph, rec: Record, start: NodePattern, elements: seq<Element>, ctx: Context)
    requires FixedPattern(start, elements, ctx) && RowFits(g, rec, start, elements, ctx)
    requires NoZero(Fixed(start.props, ctx))
    ensures AllExact(Fixed(start.props, ctx))
  {
    hide PatternProps;
  }
}
