// What a planned and executed MATCH chain returns: exactly the assignments of
// nodes and edges that satisfy the pattern.

module MatchChain {
  import opened GraphTypes
  import opened Sequences
  import opened AbstractGraph
  import opened Trails
  import opened Expressions
  import opened Planner
  import opened MatchExecution

  // An assignment of the first k hops: k + 1 nodes and k edges.
  datatype Match = Match(nodes: seq<Node>, edges: seq<Edge>)

  predicate Shaped(m: Match, k: nat) {
    |m.nodes| == k + 1 && |m.edges| == k
  }

  function InitMatch(m: Match): Match
    requires m.nodes != [] && m.edges != []
  {
    Match(Init(m.nodes), Init(m.edges))
  }

  // --- The meaning of a pattern ---

  predicate PropHolds(props: Props, key: string, value: Expr, ctx: Context) {
    ValuesEqual(if key in props then ToValue(props[key]) else Null, ConstValue(value, ctx))
  }

  predicate PropsHold(props: Props, inline: InlineProps, ctx: Context) {
    forall i :: 0 <= i < |inline| ==> PropHolds(props, inline[i].0, inline[i].1, ctx)
  }

  predicate NodeSatisfies(np: NodePattern, n: Node, ctx: Context) {
    (forall l :: l in np.labels ==> l in n.labels) && PropsHold(n.props, Inline(EntriesOf(np.props)), ctx)
  }

  predicate RelSatisfies(rp: RelPattern, e: Edge, ctx: Context) {
    TypeOk(rp.relTypes, e.relType) && PropsHold(e.props, Inline(EntriesOf(rp.props)), ctx)
  }

  predicate LiveNode(g: Graph, n: Node) {
    n.id in g.nodes && g.nodes[n.id] == n
  }

  predicate LiveEdge(g: Graph, e: Edge) {
    e.id in g.edges && g.edges[e.id] == e
  }

  // Every node and edge is stored and satisfies its part of the pattern, and
  // each edge joins its two neighbours in the direction of its arrow.
  ghost predicate Satisfies(g: Graph, ctx: Context, start: NodePattern, elements: seq<Element>, m: Match) {
    && Shaped(m, |elements|)
    && (forall i :: 0 <= i < |m.nodes| ==> LiveNode(g, m.nodes[i]))
    && (forall i :: 0 <= i < |m.edges| ==> LiveEdge(g, m.edges[i]))
    && NodeSatisfies(start, m.nodes[0], ctx)
    && (forall i :: 0 <= i < |elements| ==> HopSatisfied(ctx, elements[i], m.nodes[i], m.edges[i], m.nodes[i + 1]))
  }

  predicate HopSatisfied(ctx: Context, el: Element, from: Node, e: Edge, to: Node) {
    && Leaves(el.rel.dir, e, from.id) && Far(el.rel.dir, e, from.id) == to.id
    && RelSatisfies(el.rel, e, ctx) && NodeSatisfies(el.node, to, ctx)
  }

  // A hop joins its two nodes in the direction of its arrow.
  lemma HopMeans(ctx: Context, el: Element, from: Node, e: Edge, to: Node)
    ensures HopSatisfied(ctx, el, from, e, to) <==>
              && Joins(el.rel.dir, e, from.id, to.id) && (el.rel.relTypes == [] || e.relType in el.rel.relTypes)
              && PropsHold(e.props, Inline(EntriesOf(el.rel.props)), ctx) && NodeSatisfies(el.node, to, ctx)
  {
    JoinsMeans(el.rel.dir, e, from.id, to.id);
  }

  // An undirected hop over a self-loop is matched twice.
  function Copies(elements: seq<Element>, m: Match, k: nat): (c: nat)
    requires k <= |elements| && k <= |m.edges|
    ensures (forall i :: 0 <= i < k ==> !elements[i].rel.dir.Undirected?) ==> c == 1
  {
    if k == 0 then 1 else Times(HopFactor(elements[k - 1].rel.dir, m.edges[k - 1]), Copies(elements, m, k - 1))
  }

  function HopFactor(dir: Direction, e: Edge): nat {
    if dir.Undirected? && e.src == e.dst then 2 else 1
  }

  // --- The rows of a chain stand for matches ---

  datatype Cond = NodeLabel(lab: string) | NodeProp(key: string, value: Expr) | RelProp(key: string, value: Expr)

  predicate Holds(ctx: Context, c: Cond, m: Match)
    requires m.nodes != [] && (c.RelProp? ==> m.edges != [])
  {
    match c
    case NodeLabel(l) => l in Last(m.nodes).labels
    case NodeProp(k, v) => PropHolds(Last(m.nodes).props, k, v, ctx)
    case RelProp(k, v) => PropHolds(Last(m.edges).props, k, v, ctx)
  }

  ghost predicate AllShaped(ms: seq<Match>, k: nat) {
    forall i :: 0 <= i < |ms| ==> Shaped(ms[i], k)
  }

  ghost function Keep(ctx: Context, c: Cond, ms: seq<Match>, k: nat): (r: seq<Match>)
    requires AllShaped(ms, k) && (c.RelProp? ==> k > 0)
    ensures AllShaped(r, k)
    decreases |ms|
  {
    if ms == [] then [] else Keep(ctx, c, Init(ms), k) + if Holds(ctx, c, Last(ms)) then [Last(ms)] else []
  }

  ghost function KeepAll(ctx: Context, cs: seq<Cond>, ms: seq<Match>, k: nat): (r: seq<Match>)
    requires AllShaped(ms, k) && (forall c :: c in cs && c.RelProp? ==> k > 0)
    ensures AllShaped(r, k)
    decreases |cs|
  {
    if cs == [] then ms else Keep(ctx, Last(cs), KeepAll(ctx, Init(cs), ms, k), k)
  }

  lemma {:induction false} KeepCount(ctx: Context, c: Cond, ms: seq<Match>, k: nat, m: Match)
    requires AllShaped(ms, k) && (c.RelProp? ==> k > 0)
    ensures multiset(Keep(ctx, c, ms, k))[m] == if Shaped(m, k) && Holds(ctx, c, m) then multiset(ms)[m] else 0
    decreases |ms|
  {
    if ms != [] {
      assert ms == Init(ms) + [Last(ms)];
      KeepCount(ctx, c, Init(ms), k, m);
    }
  }

  lemma {:induction false} KeepAllCount(ctx: Context, cs: seq<Cond>, ms: seq<Match>, k: nat, m: Match)
    requires AllShaped(ms, k) && (forall c :: c in cs && c.RelProp? ==> k > 0)
    ensures multiset(KeepAll(ctx, cs, ms, k))[m] ==
            if Shaped(m, k) && (forall c :: c in cs ==> Holds(ctx, c, m)) then multiset(ms)[m] else 0
    decreases |cs|
  {
    if cs == [] {
      if m in ms {
        var i :| 0 <= i < |ms| && ms[i] == m;
      }
    } else {
      hide Holds, Shaped, AllShaped;
      KeepAllCount(ctx, Init(cs), ms, k, m);
      KeepCount(ctx, Last(cs), KeepAll(ctx, Init(cs), ms, k), k, m);
      SnocMembers(cs);
    }
  }

  lemma SnocMembers(cs: seq<Cond>)
    requires cs != []
    ensures forall c :: c in cs <==> c in Init(cs) || c == Last(cs)
  {
    assert cs == Init(cs) + [Last(cs)];
  }

  function LabelConds(labels: seq<string>): seq<Cond> {
    seq(|labels|, i requires 0 <= i < |labels| => NodeLabel(labels[i]))
  }

  function NodeConds(inline: InlineProps): seq<Cond> {
    seq(|inline|, i requires 0 <= i < |inline| => NodeProp(inline[i].0, inline[i].1))
  }

  function RelConds(inline: InlineProps): seq<Cond> {
    seq(|inline|, i requires 0 <= i < |inline| => RelProp(inline[i].0, inline[i].1))
  }

  function HopOf(part: nat, elements: seq<Element>, i: nat): Hop
    requires i < |elements|
  {
    Hop(RelVar(part, elements, i), DstVar(part, elements, i), elements[i].rel.relTypes, elements[i].rel.dir)
  }

  // The row of a match of the first k hops.
  function RowOf(part: nat, start: NodePattern, elements: seq<Element>, k: nat, m: Match): Record
    requires k <= |elements| && Shaped(m, k)
    decreases k
  {
    if k == 0 then map[StartVar(part, start, elements) := NodeVal(m.nodes[0])]
    else Bind(RowOf(part, start, elements, k - 1, InitMatch(m)), HopOf(part, elements, k - 1), Last(m.edges), Last(m.nodes))
  }

  ghost function RowsOf(part: nat, start: NodePattern, elements: seq<Element>, k: nat, ms: seq<Match>): seq<Record>
    requires k <= |elements| && AllShaped(ms, k)
  {
    seq(|ms|, i requires 0 <= i < |ms| => RowOf(part, start, elements, k, ms[i]))
  }

  // The variable bound last in a row of k hops.
  function EndVar(part: nat, start: NodePattern, elements: seq<Element>, k: nat): string
    requires k <= |elements|
  {
    if k == 0 then StartVar(part, start, elements) else DstVar(part, elements, k - 1)
  }

  function CondExpr(part: nat, start: NodePattern, elements: seq<Element>, k: nat, c: Cond): Expr
    requires k <= |elements|
    requires c.RelProp? ==> k > 0 && RelVar(part, elements, k - 1).Some?
  {
    match c
    case NodeLabel(l) => LabelFilter(EndVar(part, start, elements, k), l)
    case NodeProp(key, v) => PropFilter(EndVar(part, start, elements, k), key, v)
    case RelProp(key, v) => PropFilter(RelVar(part, elements, k - 1).value, key, v)
  }

  // The relationship and the node of a hop do not share a name.
  ghost predicate HopNamesDiffer(part: nat, elements: seq<Element>) {
    forall i :: 0 <= i < |elements| ==> RelVar(part, elements, i) != Some(DstVar(part, elements, i))
  }

  predicate CondOk(part: nat, elements: seq<Element>, k: nat, c: Cond)
    requires k <= |elements|
  {
    match c
    case NodeLabel(_) => true
    case NodeProp(_, v) => IsConstant(v)
    case RelProp(_, v) => IsConstant(v) && k > 0 && RelVar(part, elements, k - 1).Some?
  }

  lemma PropFilterEvaluates(variable: string, key: string, value: Expr, row: Record, ctx: Context)
    requires variable in row && IsConstant(value)
    ensures var v := Eval(PropFilter(variable, key, value), row, ctx);
            v.Some? && (IsTruthy(v.value) <==> ValuesEqual(GetProperty(row[variable], key), ConstValue(value, ctx)))
  {
    ConstantEval(value, row, ctx);
    assert Eval(Property(Variable(variable), key), row, ctx) == Some(GetProperty(row[variable], key));
  }

  lemma CondEvaluates(part: nat, start: NodePattern, elements: seq<Element>, k: nat, c: Cond, m: Match, ctx: Context)
    requires k <= |elements| && Shaped(m, k) && CondOk(part, elements, k, c) && HopNamesDiffer(part, elements)
    ensures var v := Eval(CondExpr(part, start, elements, k, c), RowOf(part, start, elements, k, m), ctx);
            v.Some? && (IsTruthy(v.value) <==> Holds(ctx, c, m))
  {
    var row := RowOf(part, start, elements, k, m);
    assert EndVar(part, start, elements, k) in row && row[EndVar(part, start, elements, k)] == NodeVal(Last(m.nodes));
    if c.NodeProp? {
      PropFilterEvaluates(EndVar(part, start, elements, k), c.key, c.value, row, ctx);
    } else if c.RelProp? {
      var rv := RelVar(part, elements, k - 1).value;
      assert rv in row && row[rv] == RelVal(Last(m.edges));
      PropFilterEvaluates(rv, c.key, c.value, row, ctx);
    }
  }

  lemma RowsSnoc(part: nat, start: NodePattern, elements: seq<Element>, k: nat, ms: seq<Match>, m: Match)
    requires k <= |elements| && AllShaped(ms, k) && Shaped(m, k)
    ensures AllShaped(ms + [m], k)
    ensures RowsOf(part, start, elements, k, ms + [m]) == RowsOf(part, start, elements, k, ms) + [RowOf(part, start, elements, k, m)]
  {
    hide RowOf, Shaped;
  }

  lemma FilterLast(rows: seq<Record>, kept: seq<Record>, row: Record, condition: Expr, ctx: Context)
    requires FilterRows(rows, condition, ctx) == Some(kept) && Eval(condition, row, ctx).Some?
    ensures FilterRows(rows + [row], condition, ctx) ==
            Some(if EvalsTrue(condition, row, ctx) then kept + [row] else kept)
  {
    assert Init(rows + [row]) == rows && Last(rows + [row]) == row;
    assert kept + [] == kept;
  }

  lemma {:induction false} FilterKeeps(part: nat, start: NodePattern, elements: seq<Element>, k: nat, c: Cond,
                                       ms: seq<Match>, ctx: Context)
    requires k <= |elements| && AllShaped(ms, k) && CondOk(part, elements, k, c) && HopNamesDiffer(part, elements)
    ensures FilterRows(RowsOf(part, start, elements, k, ms), CondExpr(part, start, elements, k, c), ctx)
         == Some(RowsOf(part, start, elements, k, Keep(ctx, c, ms, k)))
    decreases |ms|
  {
    if ms != [] {
      var (before, m) := (Init(ms), Last(ms));
      assert ms == before + [m];
      CondEvaluates(part, start, elements, k, c, m, ctx);
      KeepSnoc(ctx, c, before, m, k);
      hide RowOf, RowsOf, Shaped, CondExpr, HopNamesDiffer, Holds, Eval, Keep;
      FilterKeeps(part, start, elements, k, c, before, ctx);
      RowsSnoc(part, start, elements, k, before, m);
      RowsSnoc(part, start, elements, k, Keep(ctx, c, before, k), m);
      FilterLast(RowsOf(part, start, elements, k, before), RowsOf(part, start, elements, k, Keep(ctx, c, before, k)),
                 RowOf(part, start, elements, k, m), CondExpr(part, start, elements, k, c), ctx);
    }
  }

  lemma KeepSnoc(ctx: Context, c: Cond, ms: seq<Match>, m: Match, k: nat)
    requires AllShaped(ms, k) && Shaped(m, k) && (c.RelProp? ==> k > 0)
    ensures AllShaped(ms + [m], k)
    ensures Keep(ctx, c, ms + [m], k) == if Holds(ctx, c, m) then Keep(ctx, c, ms, k) + [m] else Keep(ctx, c, ms, k)
  {
    hide Holds, Shaped;
    assert Init(ms + [m]) == ms && Last(ms + [m]) == m;
  }

  lemma {:induction false} LabelsKeep(g: Graph, part: nat, start: NodePattern, elements: seq<Element>, k: nat,
                                      labels: seq<string>, p: Plan, ms: seq<Match>, ctx: Context, scanned: Option<seq<Node>>)
    requires k <= |elements| && AllShaped(ms, k) && HopNamesDiffer(part, elements)
    requires Run(g, ctx, p, scanned) == Some(RowsOf(part, start, elements, k, ms))
    ensures Run(g, ctx, WithLabels(p, EndVar(part, start, elements, k), labels), scanned)
         == Some(RowsOf(part, start, elements, k, KeepAll(ctx, LabelConds(labels), ms, k)))
    decreases |labels|
  {
    if labels != [] {
      var before := Init(labels);
      LabelsKeep(g, part, start, elements, k, before, p, ms, ctx, scanned);
      assert Init(LabelConds(labels)) == LabelConds(before) && Last(LabelConds(labels)) == NodeLabel(Last(labels));
      FilterKeeps(part, start, elements, k, NodeLabel(Last(labels)), KeepAll(ctx, LabelConds(before), ms, k), ctx);
    }
  }

  lemma {:induction false} NodePropsKeep(g: Graph, part: nat, start: NodePattern, elements: seq<Element>, k: nat,
                                         inline: InlineProps, p: Plan, ms: seq<Match>, ctx: Context, scanned: Option<seq<Node>>)
    requires k <= |elements| && AllShaped(ms, k) && HopNamesDiffer(part, elements)
    requires forall i :: 0 <= i < |inline| ==> IsConstant(inline[i].1)
    requires Run(g, ctx, p, scanned) == Some(RowsOf(part, start, elements, k, ms))
    ensures Run(g, ctx, WithProps(p, EndVar(part, start, elements, k), inline), scanned)
         == Some(RowsOf(part, start, elements, k, KeepAll(ctx, NodeConds(inline), ms, k)))
    decreases |inline|
  {
    if inline != [] {
      var before, c := Init(inline), NodeProp(Last(inline).0, Last(inline).1);
      NodePropsKeep(g, part, start, elements, k, before, p, ms, ctx, scanned);
      assert Init(NodeConds(inline)) == NodeConds(before) && Last(NodeConds(inline)) == c;
      FilterKeeps(part, start, elements, k, c, KeepAll(ctx, NodeConds(before), ms, k), ctx);
    }
  }

  lemma {:induction false} RelPropsKeep(g: Graph, part: nat, start: NodePattern, elements: seq<Element>, k: nat,
                                        inline: InlineProps, p: Plan, ms: seq<Match>, ctx: Context, scanned: Option<seq<Node>>)
    requires 0 < k <= |elements| && AllShaped(ms, k) && HopNamesDiffer(part, elements)
    requires RelVar(part, elements, k - 1).Some?
    requires forall i :: 0 <= i < |inline| ==> IsConstant(inline[i].1)
    requires Run(g, ctx, p, scanned) == Some(RowsOf(part, start, elements, k, ms))
    ensures Run(g, ctx, WithProps(p, RelVar(part, elements, k - 1).value, inline), scanned)
         == Some(RowsOf(part, start, elements, k, KeepAll(ctx, RelConds(inline), ms, k)))
    decreases |inline|
  {
    if inline != [] {
      var before, c := Init(inline), RelProp(Last(inline).0, Last(inline).1);
      RelPropsKeep(g, part, start, elements, k, before, p, ms, ctx, scanned);
      assert Init(RelConds(inline)) == RelConds(before) && Last(RelConds(inline)) == c;
      FilterKeeps(part, start, elements, k, c, KeepAll(ctx, RelConds(before), ms, k), ctx);
    }
  }

  // --- Expanding matches by one hop ---

  function Extended(g: Graph, dir: Direction, m: Match, e: Edge): Match
    requires m.nodes != [] && Far(dir, e, Last(m.nodes).id) in g.nodes
  {
    Match(m.nodes + [g.nodes[Far(dir, e, Last(m.nodes).id)]], m.edges + [e])
  }

  ghost function ExpandMatch(g: Graph, hop: Hop, m: Match, es: seq<Edge>, k: nat): (r: seq<Match>)
    requires Shaped(m, k)
    ensures AllShaped(r, k + 1) && forall x :: x in r ==> Shaped(x, k + 1) && InitMatch(x) == m
    decreases |es|
  {
    if es == [] then []
    else
      ExpandMatch(g, hop, m, Init(es), k)
      + if HopKeeps(g, hop, Last(m.nodes).id, Last(es)) then [Extended(g, hop.dir, m, Last(es))] else []
  }

  ghost function ExpandMatches(g: Graph, hop: Hop, ms: seq<Match>, k: nat): (r: seq<Match>)
    requires AllShaped(ms, k)
    ensures AllShaped(r, k + 1)
    decreases |ms|
  {
    if ms == [] then []
    else
      ExpandMatches(g, hop, Init(ms), k)
      + ExpandMatch(g, hop, Last(ms), CandidateEdges(g, hop.dir, Last(Last(ms).nodes).id), k)
  }

  lemma RowsOfAppend(part: nat, start: NodePattern, elements: seq<Element>, k: nat, a: seq<Match>, b: seq<Match>)
    requires k <= |elements| && AllShaped(a, k) && AllShaped(b, k)
    ensures AllShaped(a + b, k)
    ensures RowsOf(part, start, elements, k, a + b)
         == RowsOf(part, start, elements, k, a) + RowsOf(part, start, elements, k, b)
  {
  }

  lemma {:induction false} ExpandEdgesRows(g: Graph, part: nat, start: NodePattern, elements: seq<Element>, k: nat,
                                           m: Match, es: seq<Edge>)
    requires k < |elements| && Shaped(m, k)
    ensures ExpandEdges(g, RowOf(part, start, elements, k, m), HopOf(part, elements, k), Last(m.nodes).id, es)
         == RowsOf(part, start, elements, k + 1, ExpandMatch(g, HopOf(part, elements, k), m, es, k))
    decreases |es|
  {
    if es != [] {
      var hop, e := HopOf(part, elements, k), Last(es);
      ExpandEdgesRows(g, part, start, elements, k, m, Init(es));
      if HopKeeps(g, hop, Last(m.nodes).id, e) {
        var x := Extended(g, hop.dir, m, e);
        assert InitMatch(x) == m;
        RowsOfAppend(part, start, elements, k + 1, ExpandMatch(g, hop, m, Init(es), k), [x]);
      }
    }
  }

  lemma {:induction false} ExpandRowsMatches(g: Graph, part: nat, start: NodePattern, elements: seq<Element>, k: nat,
                                             ms: seq<Match>)
    requires k < |elements| && AllShaped(ms, k)
    ensures ExpandRows(g, RowsOf(part, start, elements, k, ms), EndVar(part, start, elements, k), HopOf(part, elements, k))
         == RowsOf(part, start, elements, k + 1, ExpandMatches(g, HopOf(part, elements, k), ms, k))
    decreases |ms|
  {
    if ms != [] {
      var hop, rows, m := HopOf(part, elements, k), RowsOf(part, start, elements, k, ms), Last(ms);
      assert Init(rows) == RowsOf(part, start, elements, k, Init(ms));
      ExpandRowsMatches(g, part, start, elements, k, Init(ms));
      RowEnd(part, start, elements, k, m);
      var es := CandidateEdges(g, hop.dir, Last(m.nodes).id);
      ExpandEdgesRows(g, part, start, elements, k, m, es);
      RowsOfAppend(part, start, elements, k + 1, ExpandMatches(g, hop, Init(ms), k), ExpandMatch(g, hop, m, es, k));
    }
  }

  lemma RowEnd(part: nat, start: NodePattern, elements: seq<Element>, k: nat, m: Match)
    requires k <= |elements| && Shaped(m, k)
    ensures var row := RowOf(part, start, elements, k, m);
            EndVar(part, start, elements, k) in row && row[EndVar(part, start, elements, k)] == NodeVal(Last(m.nodes))
  {
  }

  // --- The matches a plan computes ---

  ghost function StartMatches(nodes: seq<Node>): (r: seq<Match>)
    ensures AllShaped(r, 0)
  {
    seq(|nodes|, i requires 0 <= i < |nodes| => Match([nodes[i]], []))
  }

  function MoreLabels(start: NodePattern): seq<string> {
    if start.labels == [] then [] else start.labels[1..]
  }

  ghost function HopMatches(g: Graph, ctx: Context, el: Element, hop: Hop, ms: seq<Match>, k: nat): (r: seq<Match>)
    requires AllShaped(ms, k)
    ensures AllShaped(r, k + 1)
  {
    var related := KeepAll(ctx, RelConds(Inline(EntriesOf(el.rel.props))), ExpandMatches(g, hop, ms, k), k + 1);
    var labelled := KeepAll(ctx, LabelConds(el.node.labels), related, k + 1);
    KeepAll(ctx, NodeConds(Inline(EntriesOf(el.node.props))), labelled, k + 1)
  }

  ghost function MatchesAfter(g: Graph, ctx: Context, part: nat, start: NodePattern, elements: seq<Element>, k: nat,
                              scanned: seq<Node>): (r: seq<Match>)
    requires k <= |elements|
    ensures AllShaped(r, k)
  {
    if k == 0 then KeepAll(ctx, LabelConds(MoreLabels(start)), StartMatches(scanned), 0)
    else
      HopMatches(g, ctx, elements[k - 1], HopOf(part, elements, k - 1),
                 MatchesAfter(g, ctx, part, start, elements, k - 1, scanned), k - 1)
  }

  ghost predicate ConstantProps(elements: seq<Element>) {
    forall i :: 0 <= i < |elements| ==>
      && (forall j :: 0 <= j < |Inline(EntriesOf(elements[i].rel.props))| ==>
            IsConstant(Inline(EntriesOf(elements[i].rel.props))[j].1))
      && (forall j :: 0 <= j < |Inline(EntriesOf(elements[i].node.props))| ==>
            IsConstant(Inline(EntriesOf(elements[i].node.props))[j].1))
  }

  lemma HopPlanMatches(g: Graph, ctx: Context, part: nat, start: NodePattern, elements: seq<Element>, k: nat,
                       p: Plan, ms: seq<Match>, scanned: Option<seq<Node>>)
    requires k < |elements| && AllShaped(ms, k) && HopNamesDiffer(part, elements) && ConstantProps(elements)
    requires Run(g, ctx, p, scanned) == Some(RowsOf(part, start, elements, k, ms))
    ensures Run(g, ctx, HopPlan(p, part, start, elements, k), scanned)
         == Some(RowsOf(part, start, elements, k + 1, HopMatches(g, ctx, elements[k], HopOf(part, elements, k), ms, k)))
  {
    hide RowsOf, HopNamesDiffer, Keep, ExpandMatches, FilterRows;
    var el, hop := elements[k], HopOf(part, elements, k);
    var rv := hop.relVar;
    var expanded := Expand(p, SrcVar(part, start, elements, k), rv, hop.dst, el.rel.relTypes, el.rel.dir);
    var ms1 := ExpandMatches(g, hop, ms, k);
    ExpandRowsMatches(g, part, start, elements, k, ms);
    var relProps := Inline(EntriesOf(el.rel.props));
    var related := if rv.Some? then WithProps(expanded, rv.value, relProps) else expanded;
    var ms2 := KeepAll(ctx, RelConds(relProps), ms1, k + 1);
    if rv.Some? {
      RelPropsKeep(g, part, start, elements, k + 1, relProps, expanded, ms1, ctx, scanned);
    } else {
      assert RelConds(relProps) == [];
    }
    LabelsKeep(g, part, start, elements, k + 1, el.node.labels, related, ms2, ctx, scanned);
    var ms3 := KeepAll(ctx, LabelConds(el.node.labels), ms2, k + 1);
    NodePropsKeep(g, part, start, elements, k + 1, Inline(EntriesOf(el.node.props)),
                  WithLabels(related, hop.dst, el.node.labels), ms3, ctx, scanned);
  }

  // Running the plan of the first k hops gives the rows of their matches.
  lemma {:induction false} ChainPlanMatches(g: Graph, ctx: Context, part: nat, start: NodePattern, elements: seq<Element>,
                                            k: nat, scanned: seq<Node>)
    requires k <= |elements| && HopNamesDiffer(part, elements) && ConstantProps(elements)
    ensures Run(g, ctx, ChainPlan(part, start, elements, k), Some(scanned))
         == Some(RowsOf(part, start, elements, k, MatchesAfter(g, ctx, part, start, elements, k, scanned)))
    decreases k
  {
    hide RowsOf, Keep, HopNamesDiffer, HopMatches, HopPlan;
    if k == 0 {
      StartPlanMatches(g, ctx, part, start, elements, scanned);
    } else {
      ChainPlanMatches(g, ctx, part, start, elements, k - 1, scanned);
      HopPlanMatches(g, ctx, part, start, elements, k - 1, ChainPlan(part, start, elements, k - 1),
                     MatchesAfter(g, ctx, part, start, elements, k - 1, scanned), Some(scanned));
    }
  }

  lemma StartPlanMatches(g: Graph, ctx: Context, part: nat, start: NodePattern, elements: seq<Element>, scanned: seq<Node>)
    requires HopNamesDiffer(part, elements)
    ensures Run(g, ctx, StartPlan(part, start, elements), Some(scanned))
         == Some(RowsOf(part, start, elements, 0, MatchesAfter(g, ctx, part, start, elements, 0, scanned)))
  {
    var scan := ScanNodes(FirstLabel(start),
                          Inline(EntriesOf(start.props)), StartVar(part, start, elements));
    assert ScanRows(StartVar(part, start, elements), scanned) == RowsOf(part, start, elements, 0, StartMatches(scanned));
    LabelsKeep(g, part, start, elements, 0, MoreLabels(start), scan, StartMatches(scanned), ctx, Some(scanned));
  }

  // --- Counting ---

  lemma {:induction false} ExpandMatchCount(g: Graph, hop: Hop, m: Match, es: seq<Edge>, k: nat, x: Match)
    requires Shaped(m, k) && Shaped(x, k + 1) && InitMatch(x) == m
    ensures multiset(ExpandMatch(g, hop, m, es, k))[x] ==
            if HopKeeps(g, hop, Last(m.nodes).id, Last(x.edges))
               && Last(x.nodes) == g.nodes[Far(hop.dir, Last(x.edges), Last(m.nodes).id)]
            then multiset(es)[Last(x.edges)] else 0
    decreases |es|
  {
    if es != [] {
      assert es == Init(es) + [Last(es)];
      ExpandMatchCount(g, hop, m, Init(es), k, x);
      if HopKeeps(g, hop, Last(m.nodes).id, Last(es)) {
        var y := Extended(g, hop.dir, m, Last(es));
        SameMatch(x, y, k);
      }
    }
  }

  lemma SameMatch(x: Match, y: Match, k: nat)
    requires Shaped(x, k + 1) && Shaped(y, k + 1)
    ensures x == y <==> InitMatch(x) == InitMatch(y) && Last(x.nodes) == Last(y.nodes) && Last(x.edges) == Last(y.edges)
  {
    assert x.nodes == Init(x.nodes) + [Last(x.nodes)] && y.nodes == Init(y.nodes) + [Last(y.nodes)];
    assert x.edges == Init(x.edges) + [Last(x.edges)] && y.edges == Init(y.edges) + [Last(y.edges)];
  }

  lemma {:induction false} EdgesOfCount(g: Graph, ids: seq<EdgeId>, e: Edge)
    requires GraphOk(g) && forall i :: i in ids ==> i in g.edges
    ensures multiset(EdgesOf(g, ids))[e] == if LiveEdge(g, e) then multiset(ids)[e.id] else 0
    decreases |ids|
  {
    if ids != [] {
      assert ids == Init(ids) + [Last(ids)];
      assert EdgesOf(g, ids) == EdgesOf(g, Init(ids)) + [g.edges[Last(ids)]];
      EdgesOfCount(g, Init(ids), e);
    }
  }

  lemma CandidateEdgeCount(g: Graph, dir: Direction, n: NodeId, e: Edge)
    requires GraphOk(g)
    ensures multiset(CandidateEdges(g, dir, n))[e] ==
            if LiveEdge(g, e) && Leaves(dir, e, n) then HopFactor(dir, e) else 0
  {
    EdgesOfCount(g, Candidates(g, dir, n), e);
    CandidateCount(g, dir, n, e.id);
  }

  // The hop part of one expansion, filters aside.
  predicate HopJoins(g: Graph, hop: Hop, from: Node, e: Edge, to: Node) {
    && LiveEdge(g, e) && Leaves(hop.dir, e, from.id) && HopKeeps(g, hop, from.id, e)
    && to == g.nodes[Far(hop.dir, e, from.id)]
  }

  ghost function JoinCount(g: Graph, hop: Hop, x: Match, k: nat): nat
    requires Shaped(x, k + 1)
  {
    if HopJoins(g, hop, Last(InitMatch(x).nodes), Last(x.edges), Last(x.nodes)) then HopFactor(hop.dir, Last(x.edges)) else 0
  }

  lemma ExpandStepCount(g: Graph, hop: Hop, m: Match, k: nat, x: Match)
    requires GraphOk(g) && Shaped(x, k + 1) && Shaped(m, k)
    ensures multiset(ExpandMatch(g, hop, m, CandidateEdges(g, hop.dir, Last(m.nodes).id), k))[x] ==
            if m == InitMatch(x) then JoinCount(g, hop, x, k) else 0
  {
    var es := CandidateEdges(g, hop.dir, Last(m.nodes).id);
    if m == InitMatch(x) {
      ExpandMatchCount(g, hop, m, es, k, x);
      CandidateEdgeCount(g, hop.dir, Last(m.nodes).id, Last(x.edges));
    } else {
      assert x !in ExpandMatch(g, hop, m, es, k);
    }
  }

  lemma SnocMatches(ms: seq<Match>, m: Match)
    requires ms != []
    ensures multiset(ms)[m] == multiset(Init(ms))[m] + if Last(ms) == m then 1 else 0
  {
    assert ms == Init(ms) + [Last(ms)];
  }

  lemma {:induction false} ExpandMatchesCount(g: Graph, hop: Hop, ms: seq<Match>, k: nat, x: Match)
    requires GraphOk(g) && AllShaped(ms, k) && Shaped(x, k + 1)
    ensures multiset(ExpandMatches(g, hop, ms, k))[x] == Times(JoinCount(g, hop, x, k), multiset(ms)[InitMatch(x)])
    decreases |ms|
  {
    var c := JoinCount(g, hop, x, k);
    TimesOne(c);
    if ms != [] {
      hide Times, JoinCount, CandidateEdges, ExpandMatch;
      var l := Last(ms);
      ExpandMatchesCount(g, hop, Init(ms), k, x);
      ExpandStepCount(g, hop, l, k, x);
      MultisetConcat(ExpandMatches(g, hop, Init(ms), k),
                     ExpandMatch(g, hop, l, CandidateEdges(g, hop.dir, Last(l.nodes).id), k), x);
      SnocMatches(ms, InitMatch(x));
      TimesDistributes(c, multiset(Init(ms))[InitMatch(x)], 1);
    }
  }

  // --- Which matches satisfy the pattern ---

  // `Satisfies` for the first k hops, the start node's properties being those
  // of the scan.
  ghost predicate SatisfiesUpTo(g: Graph, ctx: Context, start: NodePattern, elements: seq<Element>, k: nat, m: Match)
    requires k <= |elements|
  {
    && Shaped(m, k)
    && (forall i :: 0 <= i < |m.nodes| ==> LiveNode(g, m.nodes[i]))
    && (forall i :: 0 <= i < |m.edges| ==> LiveEdge(g, m.edges[i]))
    && NodeSatisfies(start, m.nodes[0], ctx)
    && (forall i :: 0 <= i < k ==> HopSatisfied(ctx, elements[i], m.nodes[i], m.edges[i], m.nodes[i + 1]))
  }

  lemma HopNodeIsLive(g: Graph, hop: Hop, from: Node, e: Edge, to: Node)
    requires GraphOk(g)
    ensures HopJoins(g, hop, from, e, to) <==>
            && LiveEdge(g, e) && LiveNode(g, to) && TypeOk(hop.relTypes, e.relType)
            && Leaves(hop.dir, e, from.id) && Far(hop.dir, e, from.id) == to.id
  {
  }

  lemma SatisfiesStep(g: Graph, ctx: Context, part: nat, start: NodePattern, elements: seq<Element>, k: nat, x: Match)
    requires GraphOk(g) && k < |elements| && Shaped(x, k + 1)
    ensures var el, from, e, to := elements[k], Last(InitMatch(x).nodes), Last(x.edges), Last(x.nodes);
            SatisfiesUpTo(g, ctx, start, elements, k + 1, x) <==>
            && SatisfiesUpTo(g, ctx, start, elements, k, InitMatch(x))
            && HopJoins(g, HopOf(part, elements, k), from, e, to)
            && PropsHold(e.props, Inline(EntriesOf(el.rel.props)), ctx) && NodeSatisfies(el.node, to, ctx)
  {
    hide NodeSatisfies, PropsHold, TypeOk, LiveNode, Far, Leaves;
    HopNodeIsLive(g, HopOf(part, elements, k), Last(InitMatch(x).nodes), Last(x.edges), Last(x.nodes));
    var el, m := elements[k], InitMatch(x);
    assert forall i :: 0 <= i < |m.nodes| ==> m.nodes[i] == x.nodes[i];
    assert forall i :: 0 <= i < |m.edges| ==> m.edges[i] == x.edges[i];
    if SatisfiesUpTo(g, ctx, start, elements, k + 1, x) {
      assert HopSatisfied(ctx, el, x.nodes[k], x.edges[k], x.nodes[k + 1]);
    }
  }

  lemma HopMatchesCount(g: Graph, ctx: Context, el: Element, hop: Hop, ms: seq<Match>, k: nat, x: Match)
    requires GraphOk(g) && AllShaped(ms, k) && Shaped(x, k + 1)
    ensures multiset(HopMatches(g, ctx, el, hop, ms, k))[x] ==
            if PropsHold(Last(x.edges).props, Inline(EntriesOf(el.rel.props)), ctx) && NodeSatisfies(el.node, Last(x.nodes), ctx)
            then Times(JoinCount(g, hop, x, k), multiset(ms)[InitMatch(x)]) else 0
  {
    hide Times, JoinCount, ExpandMatches, PropHolds, KeepAll;
    var relInline, nodeInline := Inline(EntriesOf(el.rel.props)), Inline(EntriesOf(el.node.props));
    var ms1 := ExpandMatches(g, hop, ms, k);
    ExpandMatchesCount(g, hop, ms, k, x);
    KeepAllCount(ctx, RelConds(relInline), ms1, k + 1, x);
    var ms2 := KeepAll(ctx, RelConds(relInline), ms1, k + 1);
    KeepAllCount(ctx, LabelConds(el.node.labels), ms2, k + 1, x);
    var ms3 := KeepAll(ctx, LabelConds(el.node.labels), ms2, k + 1);
    KeepAllCount(ctx, NodeConds(nodeInline), ms3, k + 1, x);
    RelCondsHold(ctx, relInline, x);
    LabelCondsHold(ctx, el.node.labels, x);
    NodeCondsHold(ctx, nodeInline, x);
  }

  lemma RelCondsHold(ctx: Context, inline: InlineProps, m: Match)
    requires m.nodes != [] && m.edges != []
    ensures (forall c :: c in RelConds(inline) ==> Holds(ctx, c, m)) <==> PropsHold(Last(m.edges).props, inline, ctx)
  {
    var cs := RelConds(inline);
    assert forall i :: 0 <= i < |inline| ==> cs[i] in cs;
    assert forall i :: 0 <= i < |cs| ==> (Holds(ctx, cs[i], m) <==> PropHolds(Last(m.edges).props, inline[i].0, inline[i].1, ctx));
    if PropsHold(Last(m.edges).props, inline, ctx) {
      forall c | c in cs ensures Holds(ctx, c, m) {
        var i :| 0 <= i < |cs| && cs[i] == c;
      }
    }
  }

  lemma NodeCondsHold(ctx: Context, inline: InlineProps, m: Match)
    requires m.nodes != []
    ensures (forall c :: c in NodeConds(inline) ==> Holds(ctx, c, m)) <==> PropsHold(Last(m.nodes).props, inline, ctx)
  {
    var cs := NodeConds(inline);
    assert forall i :: 0 <= i < |inline| ==> cs[i] in cs;
    assert forall i :: 0 <= i < |cs| ==> (Holds(ctx, cs[i], m) <==> PropHolds(Last(m.nodes).props, inline[i].0, inline[i].1, ctx));
    if PropsHold(Last(m.nodes).props, inline, ctx) {
      forall c | c in cs ensures Holds(ctx, c, m) {
        var i :| 0 <= i < |cs| && cs[i] == c;
      }
    }
  }

  lemma LabelCondsHold(ctx: Context, labels: seq<string>, m: Match)
    requires m.nodes != []
    ensures (forall c :: c in LabelConds(labels) ==> Holds(ctx, c, m)) <==> (forall l :: l in labels ==> l in Last(m.nodes).labels)
  {
    var cs := LabelConds(labels);
    assert forall i :: 0 <= i < |labels| ==> cs[i] in cs;
    forall l | l in labels ensures NodeLabel(l) in cs {
      var i :| 0 <= i < |labels| && labels[i] == l;
      assert cs[i] == NodeLabel(l);
    }
  }

  // What the scan contributes: each node once that carries the first label and
  // the inline properties.
  ghost predicate ScanFinds(g: Graph, ctx: Context, start: NodePattern, scanned: seq<Node>) {
    forall n :: multiset(scanned)[n] ==
      if LiveNode(g, n) && (start.labels != [] ==> start.labels[0] in n.labels)
         && PropsHold(n.props, Inline(EntriesOf(start.props)), ctx) then 1 else 0
  }

  lemma StartMatchesCount(nodes: seq<Node>, n: Node)
    ensures multiset(StartMatches(nodes))[Match([n], [])] == multiset(nodes)[n]
    decreases |nodes|
  {
    if nodes != [] {
      var l := Last(nodes);
      assert nodes == Init(nodes) + [l];
      assert StartMatches(nodes) == StartMatches(Init(nodes)) + [Match([l], [])];
      assert Match([l], []) == Match([n], []) <==> l == n by {
        assert Match([l], []).nodes[0] == l && Match([n], []).nodes[0] == n;
      }
      StartMatchesCount(Init(nodes), n);
    }
  }

  lemma StartCount(g: Graph, ctx: Context, start: NodePattern, elements: seq<Element>, scanned: seq<Node>, m: Match)
    requires ScanFinds(g, ctx, start, scanned) && Shaped(m, 0)
    ensures multiset(KeepAll(ctx, LabelConds(MoreLabels(start)), StartMatches(scanned), 0))[m] ==
            if SatisfiesUpTo(g, ctx, start, elements, 0, m) then 1 else 0
  {
    var n := m.nodes[0];
    assert m == Match([n], []);
    StartMatchesCount(scanned, n);
    KeepAllCount(ctx, LabelConds(MoreLabels(start)), StartMatches(scanned), 0, m);
    LabelCondsHold(ctx, MoreLabels(start), m);
    assert start.labels != [] ==> start.labels == [start.labels[0]] + MoreLabels(start);
  }

  // Every satisfying assignment is found, and found as often as its
  // undirected self-loops dictate; nothing else is.
  lemma {:induction false} MatchesExact(g: Graph, ctx: Context, part: nat, start: NodePattern, elements: seq<Element>,
                                        k: nat, scanned: seq<Node>, m: Match)
    requires GraphOk(g) && k <= |elements| && ScanFinds(g, ctx, start, scanned) && Shaped(m, k)
    ensures multiset(MatchesAfter(g, ctx, part, start, elements, k, scanned))[m] ==
            if SatisfiesUpTo(g, ctx, start, elements, k, m) then Copies(elements, m, k) else 0
    decreases k
  {
    if k == 0 {
      StartCount(g, ctx, start, elements, scanned, m);
    } else {
      var prev, all := InitMatch(m), MatchesAfter(g, ctx, part, start, elements, k - 1, scanned);
      var el, hop := elements[k - 1], HopOf(part, elements, k - 1);
      CopiesStep(g, elements, m, k, hop);
      MatchesExact(g, ctx, part, start, elements, k - 1, scanned, prev);
      hide Times, HopMatches, SatisfiesUpTo, HopJoins, ScanFinds, Copies, JoinCount, HopFactor, PropsHold, NodeSatisfies, LiveEdge;
      HopMatchesCount(g, ctx, el, hop, all, k - 1, m);
      SatisfiesStep(g, ctx, part, start, elements, k - 1, m);
      CombineCounts(multiset(MatchesAfter(g, ctx, part, start, elements, k, scanned))[m], multiset(all)[prev],
                    JoinCount(g, hop, m, k - 1), HopFactor(hop.dir, Last(m.edges)), Copies(elements, prev, k - 1),
                    PropsHold(Last(m.edges).props, Inline(EntriesOf(el.rel.props)), ctx) && NodeSatisfies(el.node, Last(m.nodes), ctx),
                    HopJoins(g, hop, Last(prev.nodes), Last(m.edges), Last(m.nodes)),
                    SatisfiesUpTo(g, ctx, start, elements, k - 1, prev));
    }
  }

  lemma CombineCounts(count: nat, inner: nat, join: nat, factor: nat, copies: nat, holds: bool, joins: bool, before: bool)
    requires inner == if before then copies else 0
    requires join == if joins then factor else 0
    requires count == if holds then Times(join, inner) else 0
    ensures count == if before && joins && holds then Times(factor, copies) else 0
  {
  }

  lemma CopiesStep(g: Graph, elements: seq<Element>, m: Match, k: nat, hop: Hop)
    requires 0 < k <= |elements| && Shaped(m, k) && hop.dir == elements[k - 1].rel.dir
    ensures Copies(elements, m, k) == Times(HopFactor(hop.dir, Last(m.edges)), Copies(elements, InitMatch(m), k - 1))
    ensures JoinCount(g, hop, m, k - 1) ==
            if HopJoins(g, hop, Last(InitMatch(m).nodes), Last(m.edges), Last(m.nodes)) then HopFactor(hop.dir, Last(m.edges)) else 0
  {
    hide Times, HopJoins;
    CopiesOfInit(elements, m, k - 1);
  }

  lemma {:induction false} CopiesOfInit(elements: seq<Element>, m: Match, k: nat)
    requires k <= |elements| && m.edges != [] && m.nodes != [] && k < |m.edges|
    ensures Copies(elements, m, k) == Copies(elements, InitMatch(m), k)
    decreases k
  {
    if k > 0 {
      CopiesOfInit(elements, m, k - 1);
    }
  }
}
