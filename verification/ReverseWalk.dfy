// EXISTS and pattern comprehensions over a single hop whose far node is
// bound: the reverse walk from the bound node gives what walking forward from
// every start node gives.

module ReverseWalk {
  import opened GraphTypes
  import opened Sequences
  import opened AbstractGraph
  import opened MemoryStorages
  import opened Trails
  import opened Expressions
  import opened Planner
  import opened MatchExecution
  import opened MatchChain
  import opened PatternMatching

  // One match of the hop: the start node and the relationship.
  datatype Pair = Pair(from: Node, edge: Edge)

  // The row on which a hop's expressions are evaluated. A comprehension adds
  // the start node to it; EXISTS evaluates everything on the outer row.
  function Scope(rec: Record, start: NodePattern, from: Node, scoped: bool): Record {
    if scoped && start.variable.Some? then rec[start.variable.value := NodeVal(from)] else rec
  }

  // Which far nodes a forward walk accepts: any, the one bound, or none when
  // the far variable is bound to something that is not a node.
  datatype Want = AnyNode | OnlyNode(id: NodeId) | NoNode

  function WantOf(rec: Record, np: NodePattern): Want {
    if np.variable.Some? && np.variable.value in rec then
      if rec[np.variable.value].NodeVal? then OnlyNode(rec[np.variable.value].node.id) else NoNode
    else AnyNode
  }

  predicate Admits(want: Want, n: NodeId) {
    want.AnyNode? || want == OnlyNode(n)
  }

  // --- Forward ---

  ghost predicate ForwardKeeps(g: Graph, rec: Record, ctx: Context, start: NodePattern, el: Element, scoped: bool,
                               want: Want, from: Node, e: Edge)
  {
    var next := Far(el.rel.dir, e, from.id);
    && next in g.nodes && Admits(want, next)
    && RelHolds(e, el.rel, Scope(rec, start, from, scoped), ctx)
    && NodeHolds(g.nodes[next], el.node, Scope(rec, start, from, scoped), ctx)
  }

  ghost function ForwardEdges(g: Graph, rec: Record, ctx: Context, start: NodePattern, el: Element, scoped: bool,
                              want: Want, from: Node, es: seq<Edge>): seq<Pair>
    decreases |es|
  {
    if es == [] then []
    else
      ForwardEdges(g, rec, ctx, start, el, scoped, want, from, Init(es))
      + if ForwardKeeps(g, rec, ctx, start, el, scoped, want, from, Last(es)) then [Pair(from, Last(es))] else []
  }

  // All matches found from a list of candidate start nodes, in order.
  ghost function ForwardPairs(g: Graph, rec: Record, ctx: Context, start: NodePattern, el: Element, scoped: bool,
                              want: Want, nodes: seq<Node>): seq<Pair>
    decreases |nodes|
  {
    if nodes == [] then []
    else
      ForwardPairs(g, rec, ctx, start, el, scoped, want, Init(nodes))
      + ForwardEdges(g, rec, ctx, start, el, scoped, want, Last(nodes), CandidateEdges(g, el.rel.dir, Last(nodes).id))
  }

  // --- Reverse ---

  ghost function ReverseCandidates(g: Graph, dir: Direction, n: NodeId): (r: seq<EdgeId>)
    ensures forall e :: e in r ==> e in g.edges
  {
    match dir
    case Outgoing => InIds(g, n)
    case Incoming => OutIds(g, n)
    case Undirected => InIds(g, n) + OutIds(g, n)
  }

  // The node on the other side of an edge that arrives at `n`.
  function Behind(dir: Direction, e: Edge, n: NodeId): NodeId {
    match dir
    case Outgoing => e.src
    case Incoming => e.dst
    case Undirected => if e.dst == n then e.src else e.dst
  }

  ghost predicate ReverseKeeps(g: Graph, rec: Record, ctx: Context, start: NodePattern, el: Element, scoped: bool,
                               bound: NodeId, e: Edge)
  {
    var far := Behind(el.rel.dir, e, bound);
    && far in g.nodes
    && NodeHolds(g.nodes[far], start, rec, ctx)
    && RelHolds(e, el.rel, Scope(rec, start, g.nodes[far], scoped), ctx)
  }

  ghost function ReverseEdges(g: Graph, rec: Record, ctx: Context, start: NodePattern, el: Element, scoped: bool,
                              bound: NodeId, es: seq<Edge>): seq<Pair>
    decreases |es|
  {
    if es == [] then []
    else
      ReverseEdges(g, rec, ctx, start, el, scoped, bound, Init(es))
      + if ReverseKeeps(g, rec, ctx, start, el, scoped, bound, Last(es))
        then [Pair(g.nodes[Behind(el.rel.dir, Last(es), bound)], Last(es))] else []
  }

  ghost function ReversePairs(g: Graph, rec: Record, ctx: Context, start: NodePattern, el: Element, scoped: bool,
                              bound: Node): seq<Pair>
  {
    if NodeHolds(bound, el.node, rec, ctx)
    then ReverseEdges(g, rec, ctx, start, el, scoped, bound.id, EdgesOf(g, ReverseCandidates(g, el.rel.dir, bound.id)))
    else []
  }

  // --- Counting ---

  lemma {:induction false} ForwardEdgesCount(g: Graph, rec: Record, ctx: Context, start: NodePattern, el: Element,
                                             scoped: bool, want: Want, from: Node, es: seq<Edge>, x: Pair)
    ensures multiset(ForwardEdges(g, rec, ctx, start, el, scoped, want, from, es))[x] ==
            if x.from == from && ForwardKeeps(g, rec, ctx, start, el, scoped, want, from, x.edge)
            then multiset(es)[x.edge] else 0
    decreases |es|
  {
    if es != [] {
      assert es == Init(es) + [Last(es)];
      ForwardEdgesCount(g, rec, ctx, start, el, scoped, want, from, Init(es), x);
    }
  }

  lemma {:induction false} ForwardPairsCount(g: Graph, rec: Record, ctx: Context, start: NodePattern, el: Element,
                                             scoped: bool, want: Want, nodes: seq<Node>, x: Pair)
    requires NoDup(nodes)
    ensures multiset(ForwardPairs(g, rec, ctx, start, el, scoped, want, nodes))[x] ==
            if x.from in nodes && ForwardKeeps(g, rec, ctx, start, el, scoped, want, x.from, x.edge)
            then multiset(CandidateEdges(g, el.rel.dir, x.from.id))[x.edge] else 0
    decreases |nodes|
  {
    if nodes != [] {
      hide ForwardKeeps, CandidateEdges;
      var l := Last(nodes);
      assert nodes == Init(nodes) + [l];
      NoDupAppend(Init(nodes), l);
      var es := CandidateEdges(g, el.rel.dir, l.id);
      ForwardPairsCount(g, rec, ctx, start, el, scoped, want, Init(nodes), x);
      ForwardEdgesCount(g, rec, ctx, start, el, scoped, want, l, es, x);
      MultisetConcat(ForwardPairs(g, rec, ctx, start, el, scoped, want, Init(nodes)),
                     ForwardEdges(g, rec, ctx, start, el, scoped, want, l, es), x);
    }
  }

  lemma {:induction false} ReverseEdgesCount(g: Graph, rec: Record, ctx: Context, start: NodePattern, el: Element,
                                             scoped: bool, bound: NodeId, es: seq<Edge>, x: Pair)
    requires GraphOk(g)
    ensures multiset(ReverseEdges(g, rec, ctx, start, el, scoped, bound, es))[x] ==
            if ReverseKeeps(g, rec, ctx, start, el, scoped, bound, x.edge)
               && x.from == g.nodes[Behind(el.rel.dir, x.edge, bound)]
            then multiset(es)[x.edge] else 0
    decreases |es|
  {
    if es != [] {
      assert es == Init(es) + [Last(es)];
      ReverseEdgesCount(g, rec, ctx, start, el, scoped, bound, Init(es), x);
    }
  }

  lemma ReverseCandidateCount(g: Graph, dir: Direction, n: NodeId, e: Edge)
    requires GraphOk(g)
    ensures multiset(EdgesOf(g, ReverseCandidates(g, dir, n)))[e] ==
            if LiveEdge(g, e) && Leaves(dir, e, Behind(dir, e, n)) && Far(dir, e, Behind(dir, e, n)) == n
            then HopFactor(dir, e) else 0
  {
    EdgesOfCount(g, ReverseCandidates(g, dir, n), e);
    NoDupMultiset(OutIds(g, n), e.id);
    NoDupMultiset(InIds(g, n), e.id);
    assert e.id in OutIds(g, n) <==> e.id in OutSet(g.edges, n);
    assert e.id in InIds(g, n) <==> e.id in InSet(g.edges, n);
  }

  // An edge taken forward from `s` to `n` is the edge taken back from `n` to
  // `s`, in all three directions and for self-loops.
  lemma ForwardIsBackward(dir: Direction, e: Edge, s: NodeId, n: NodeId)
    ensures Leaves(dir, e, s) && Far(dir, e, s) == n <==>
            Behind(dir, e, n) == s && Leaves(dir, e, s) && Far(dir, e, s) == n
  {
  }

  // `x` is an edge to the bound node from a node that satisfies the start, and
  // the relationship pattern holds; only the far node's pattern is left to check.
  ghost predicate Arrives(g: Graph, rec: Record, ctx: Context, start: NodePattern, el: Element, scoped: bool, bound: Node, x: Pair) {
    && x.from in Matching(g, start, rec, ctx)
    && LiveEdge(g, x.edge) && Leaves(el.rel.dir, x.edge, x.from.id) && Far(el.rel.dir, x.edge, x.from.id) == bound.id
    && RelHolds(x.edge, el.rel, Scope(rec, start, x.from, scoped), ctx)
  }

  // Wherever it is checked, the far node's pattern gives the same on the outer
  // row, where the reverse walk checks it, and on the row with the start node.
  ghost predicate TerminalAgrees(g: Graph, rec: Record, ctx: Context, start: NodePattern, el: Element, scoped: bool, bound: Node) {
    forall x :: Arrives(g, rec, ctx, start, el, scoped, bound, x) ==>
      (NodeHolds(bound, el.node, Scope(rec, start, x.from, scoped), ctx) <==> NodeHolds(bound, el.node, rec, ctx))
  }

  lemma PairCounts(g: Graph, rec: Record, ctx: Context, start: NodePattern, el: Element, scoped: bool,
                   bound: Node, nodes: seq<Node>, x: Pair)
    requires GraphOk(g) && LiveNode(g, bound)
    requires Enumerates(nodes, Matching(g, start, rec, ctx))
    ensures multiset(ReversePairs(g, rec, ctx, start, el, scoped, bound))[x] ==
            if Arrives(g, rec, ctx, start, el, scoped, bound, x) && NodeHolds(bound, el.node, rec, ctx)
            then HopFactor(el.rel.dir, x.edge) else 0
    ensures multiset(ForwardPairs(g, rec, ctx, start, el, scoped, OnlyNode(bound.id), nodes))[x] ==
            if Arrives(g, rec, ctx, start, el, scoped, bound, x)
               && NodeHolds(bound, el.node, Scope(rec, start, x.from, scoped), ctx)
            then HopFactor(el.rel.dir, x.edge) else 0
  {
    hide NodeHolds, RelHolds, Scope, ReverseCandidates, CandidateEdges;
    var dir := el.rel.dir;
    ForwardPairsCount(g, rec, ctx, start, el, scoped, OnlyNode(bound.id), nodes, x);
    CandidateEdgeCount(g, dir, x.from.id, x.edge);
    ReverseEdgesCount(g, rec, ctx, start, el, scoped, bound.id, EdgesOf(g, ReverseCandidates(g, dir, bound.id)), x);
    ReverseCandidateCount(g, dir, bound.id, x.edge);
    ForwardIsBackward(dir, x.edge, x.from.id, bound.id);
    assert x.from in nodes <==> x.from in Matching(g, start, rec, ctx);
    assert x.from in Matching(g, start, rec, ctx) <==> LiveNode(g, x.from) && NodeHolds(x.from, start, rec, ctx);
  }

  // The matches found backwards are the matches found forwards, each as often,
  // exactly when the far node's pattern does not depend on the start node there.
  lemma ReverseEqualsForward(g: Graph, rec: Record, ctx: Context, start: NodePattern, el: Element, scoped: bool,
                             bound: Node, nodes: seq<Node>)
    requires GraphOk(g) && LiveNode(g, bound)
    requires Enumerates(nodes, Matching(g, start, rec, ctx))
    ensures TerminalAgrees(g, rec, ctx, start, el, scoped, bound) <==>
            (multiset(ReversePairs(g, rec, ctx, start, el, scoped, bound)) ==
             multiset(ForwardPairs(g, rec, ctx, start, el, scoped, OnlyNode(bound.id), nodes)))
  {
    hide Arrives, NodeHolds, ReversePairs, ForwardPairs, Scope;
    var back := ReversePairs(g, rec, ctx, start, el, scoped, bound);
    var forth := ForwardPairs(g, rec, ctx, start, el, scoped, OnlyNode(bound.id), nodes);
    forall x: Pair
      ensures Arrives(g, rec, ctx, start, el, scoped, bound, x) ==>
                ((NodeHolds(bound, el.node, Scope(rec, start, x.from, scoped), ctx) <==> NodeHolds(bound, el.node, rec, ctx))
                 <==> multiset(back)[x] == multiset(forth)[x])
      ensures !Arrives(g, rec, ctx, start, el, scoped, bound, x) ==> multiset(back)[x] == multiset(forth)[x]
    {
      PairCounts(g, rec, ctx, start, el, scoped, bound, nodes, x);
    }
    if TerminalAgrees(g, rec, ctx, start, el, scoped, bound) {
      forall x: Pair ensures multiset(back)[x] == multiset(forth)[x] {}
    }
  }

  // Two nodes and an edge between them that a walk over the pattern could meet.
  ghost predicate CouldArrive(rec: Record, ctx: Context, start: NodePattern, el: Element, scoped: bool, from: Node, e: Edge, to: Node) {
    && (from.id == to.id ==> from == to)
    && Leaves(el.rel.dir, e, from.id) && Far(el.rel.dir, e, from.id) == to.id
    && NodeHolds(from, start, rec, ctx) && RelHolds(e, el.rel, Scope(rec, start, from, scoped), ctx)
  }

  ghost predicate WalksAlwaysAgree(rec: Record, ctx: Context, start: NodePattern, el: Element, scoped: bool) {
    forall g: Graph, bound: Node, nodes: seq<Node> |
      GraphOk(g) && LiveNode(g, bound) && Enumerates(nodes, Matching(g, start, rec, ctx)) ::
        multiset(ReversePairs(g, rec, ctx, start, el, scoped, bound)) ==
        multiset(ForwardPairs(g, rec, ctx, start, el, scoped, OnlyNode(bound.id), nodes))
  }

  // On every graph: exactly when no start node and edge that fit the pattern
  // change what the far node's pattern says of any node.
  lemma ReverseIsTight(rec: Record, ctx: Context, start: NodePattern, el: Element, scoped: bool)
    ensures WalksAlwaysAgree(rec, ctx, start, el, scoped) <==>
              forall from, e, to :: CouldArrive(rec, ctx, start, el, scoped, from, e, to) ==>
                (NodeHolds(to, el.node, Scope(rec, start, from, scoped), ctx) <==> NodeHolds(to, el.node, rec, ctx))
  {
    hide NodeHolds, RelHolds, Scope, ReversePairs, ForwardPairs, Leaves, Far;
    if WalksAlwaysAgree(rec, ctx, start, el, scoped) {
      forall from, e, to | CouldArrive(rec, ctx, start, el, scoped, from, e, to)
        ensures NodeHolds(to, el.node, Scope(rec, start, from, scoped), ctx) <==> NodeHolds(to, el.node, rec, ctx)
      {
        OneHopAgrees(rec, ctx, start, el, scoped, from, e, to);
      }
    }
    if forall from, e, to :: CouldArrive(rec, ctx, start, el, scoped, from, e, to) ==>
         (NodeHolds(to, el.node, Scope(rec, start, from, scoped), ctx) <==> NodeHolds(to, el.node, rec, ctx))
    {
      forall g: Graph, bound: Node, nodes: seq<Node> |
        GraphOk(g) && LiveNode(g, bound) && Enumerates(nodes, Matching(g, start, rec, ctx))
        ensures multiset(ReversePairs(g, rec, ctx, start, el, scoped, bound))
             == multiset(ForwardPairs(g, rec, ctx, start, el, scoped, OnlyNode(bound.id), nodes))
      {
        forall x | Arrives(g, rec, ctx, start, el, scoped, bound, x)
          ensures NodeHolds(bound, el.node, Scope(rec, start, x.from, scoped), ctx) <==> NodeHolds(bound, el.node, rec, ctx)
        {
          assert CouldArrive(rec, ctx, start, el, scoped, x.from, x.edge, bound);
        }
        ReverseEqualsForward(g, rec, ctx, start, el, scoped, bound, nodes);
      }
    }
  }

  // The graph of one edge and its ends.
  lemma OneHopAgrees(rec: Record, ctx: Context, start: NodePattern, el: Element, scoped: bool, from: Node, e: Edge, to: Node)
    requires WalksAlwaysAgree(rec, ctx, start, el, scoped) && CouldArrive(rec, ctx, start, el, scoped, from, e, to)
    ensures NodeHolds(to, el.node, Scope(rec, start, from, scoped), ctx) <==> NodeHolds(to, el.node, rec, ctx)
  {
    hide NodeHolds, RelHolds, Scope, ReversePairs, ForwardPairs;
    var g := Graph(map[from.id := from, to.id := to], map[e.id := e], from.id + to.id + 1, e.id + 1);
    assert GraphOk(g) && LiveNode(g, to) && LiveNode(g, from);
    var nodes := SomeEnumeration(Matching(g, start, rec, ctx));
    ReverseEqualsForward(g, rec, ctx, start, el, scoped, to, nodes);
    assert Arrives(g, rec, ctx, start, el, scoped, to, Pair(from, e));
  }

  // It is enough that the far node's properties do not mention the start variable.
  predicate TerminalIndependent(start: NodePattern, el: Element) {
    start.variable.Some? ==> NotMentioned(Inline(EntriesOf(el.node.props)), start.variable.value)
  }

  lemma IndependentAgrees(g: Graph, rec: Record, ctx: Context, start: NodePattern, el: Element, scoped: bool, bound: Node)
    requires scoped ==> TerminalIndependent(start, el)
    ensures TerminalAgrees(g, rec, ctx, start, el, scoped, bound)
  {
    hide Arrives;
    forall x | Arrives(g, rec, ctx, start, el, scoped, bound, x)
      ensures NodeHolds(bound, el.node, Scope(rec, start, x.from, scoped), ctx) <==> NodeHolds(bound, el.node, rec, ctx)
    {
      if scoped && start.variable.Some? {
        AllEqualIgnores(bound.props, Inline(EntriesOf(el.node.props)), rec, start.variable.value, NodeVal(x.from), ctx);
      }
    }
  }

  // --- The walks as they run ---

  // The start nodes of a forward walk.
  ghost function StartSet(g: Graph, rec: Record, ctx: Context, np: NodePattern): set<Node> {
    if np.variable.Some? && np.variable.value in rec then
      var v := rec[np.variable.value];
      if v.NodeVal? && NodeHolds(v.node, np, rec, ctx) then {v.node} else {}
    else Matching(g, np, rec, ctx)
  }

  method StartCandidates(storage: MemoryStorage, rec: Record, ctx: Context, np: NodePattern)
    returns (r: Option<seq<Node>>)
    requires storage.Valid()
    ensures NodeEvaluates(np, rec, ctx) ==> r.Some? && Enumerates(r.value, StartSet(storage.View(), rec, ctx, np))
  {
    hide MemoryStorage.Valid, NodeHolds, NodeMatches, NodeEvaluates;
    if np.variable.Some? && np.variable.value in rec {
      var v := rec[np.variable.value];
      if !v.NodeVal? {
        return Some([]);
      }
      if NodeEvaluates(np, rec, ctx) {
        NodeMatchesMeaning(v.node, np, rec, ctx);
      }
      var m := NodeMatches(v.node, np, rec, ctx);
      if m.None? {
        return None;
      }
      return Some(if m.value then [v.node] else []);
    }
    r := NodeCandidates(storage, np, rec, ctx);
  }

  // `exists_rel_properties_match` behind the type filter.
  function RelMatches(e: Edge, rp: RelPattern, rec: Record, ctx: Context): Option<bool> {
    if !TypeOk(rp.relTypes, e.relType) then Some(false) else PropsMatch(e.props, Inline(EntriesOf(rp.props)), rec, ctx)
  }

  lemma RelMatchesMeaning(e: Edge, rp: RelPattern, rec: Record, ctx: Context)
    requires RelEvaluates(rp, rec, ctx)
    ensures RelMatches(e, rp, rec, ctx).Some? && (RelMatches(e, rp, rec, ctx).value <==> RelHolds(e, rp, rec, ctx))
  {
    PropsMatchMeaning(e.props, Inline(EntriesOf(rp.props)), rec, ctx);
  }

  // The hop's properties evaluate with this start node.
  predicate HopEvaluates(rec: Record, ctx: Context, start: NodePattern, el: Element, scoped: bool, from: Node) {
    RelEvaluates(el.rel, Scope(rec, start, from, scoped), ctx) && NodeEvaluates(el.node, Scope(rec, start, from, scoped), ctx)
  }

  // No property of the pattern is an error on a row the walks use.
  ghost predicate Evaluable(g: Graph, rec: Record, ctx: Context, start: NodePattern, el: Element, scoped: bool) {
    && NodeEvaluates(start, rec, ctx) && NodeEvaluates(el.node, rec, ctx)
    && (!scoped ==> RelEvaluates(el.rel, rec, ctx))
    && forall from :: from in StartSet(g, rec, ctx, start) ==> HopEvaluates(rec, ctx, start, el, scoped, from)
  }

  // It is enough that no property of the pattern is an error on any row.
  lemma NoErrorIsEvaluable(g: Graph, rec: Record, ctx: Context, start: NodePattern, el: Element, scoped: bool)
    requires forall e: Expr, row: Record ::
               e in ValuesOf(start.props) || e in ValuesOf(el.rel.props) || e in ValuesOf(el.node.props) ==> Eval(e, row, ctx).Some?
    ensures Evaluable(g, rec, ctx, start, el, scoped)
  {
    hide NodeEvaluates, RelEvaluates, Eval;
    forall row: Record
      ensures NodeEvaluates(start, row, ctx)
      ensures NodeEvaluates(el.node, row, ctx)
      ensures RelEvaluates(el.rel, row, ctx)
    {
      ValuesEvaluate(start.props, row, ctx);
      ValuesEvaluate(el.node.props, row, ctx);
      ValuesEvaluate(el.rel.props, row, ctx);
      EvaluatesMeans(start, el, row, ctx);
    }
    assert NodeEvaluates(start, rec, ctx) && NodeEvaluates(el.node, rec, ctx) && RelEvaluates(el.rel, rec, ctx);
    forall from ensures HopEvaluates(rec, ctx, start, el, scoped, from) {
      var row := Scope(rec, start, from, scoped);
      assert NodeEvaluates(start, row, ctx) && NodeEvaluates(el.node, row, ctx) && RelEvaluates(el.rel, row, ctx);
    }
  }

  lemma EvaluatesMeans(start: NodePattern, el: Element, row: Record, ctx: Context)
    requires Evaluates(Inline(EntriesOf(start.props)), row, ctx) && Evaluates(Inline(EntriesOf(el.node.props)), row, ctx)
    requires Evaluates(Inline(EntriesOf(el.rel.props)), row, ctx)
    ensures NodeEvaluates(start, row, ctx) && NodeEvaluates(el.node, row, ctx) && RelEvaluates(el.rel, row, ctx)
  {
  }

  lemma ValuesEvaluate(props: Option<seq<Entry>>, row: Record, ctx: Context)
    requires forall e: Expr :: e in ValuesOf(props) ==> Eval(e, row, ctx).Some?
    ensures Evaluates(Inline(EntriesOf(props)), row, ctx)
  {
    hide Eval;
    var inline := Inline(EntriesOf(props));
    InlineValues(EntriesOf(props));
    forall i | 0 <= i < |inline| ensures Eval(inline[i].1, row, ctx).Some? {
      assert IsValueOf(EntriesOf(props), inline[i].1);
      assert inline[i].1 in ValuesOf(props);
    }
  }

  function ValuesOf(props: Option<seq<Entry>>): set<Expr> {
    set i | 0 <= i < |EntriesOf(props)| :: EntriesOf(props)[i].value
  }

  predicate IsValueOf(entries: seq<Entry>, e: Expr) {
    exists j :: 0 <= j < |entries| && entries[j].value == e
  }

  lemma {:induction false} InlineValues(entries: seq<Entry>)
    ensures forall i :: 0 <= i < |Inline(entries)| ==> IsValueOf(entries, Inline(entries)[i].1)
    decreases |entries|
  {
    if entries != [] {
      var rest := Inline(entries[1..]);
      InlineValues(entries[1..]);
      forall i | 0 <= i < |Inline(entries)| ensures IsValueOf(entries, Inline(entries)[i].1) {
        if entries[0].key.Identifier? && i == 0 {
          assert entries[0].value == Inline(entries)[i].1;
        } else {
          var k := if entries[0].key.Identifier? then i - 1 else i;
          assert Inline(entries)[i] == rest[k] && IsValueOf(entries[1..], rest[k].1);
          var j :| 0 <= j < |entries[1..]| && entries[1..][j].value == rest[k].1;
          assert entries[j + 1].value == Inline(entries)[i].1;
        }
      }
    }
  }

  // What one edge of the reverse walk evaluates.
  ghost predicate BackEvaluates(g: Graph, rec: Record, ctx: Context, start: NodePattern, el: Element, scoped: bool, bound: NodeId, e: Edge) {
    var far := Behind(el.rel.dir, e, bound);
    && NodeEvaluates(start, rec, ctx)
    && (!scoped ==> RelEvaluates(el.rel, rec, ctx))
    && (far in g.nodes && NodeHolds(g.nodes[far], start, rec, ctx) ==>
          RelEvaluates(el.rel, Scope(rec, start, g.nodes[far], scoped), ctx))
  }

  predicate StartIsFree(rec: Record, start: NodePattern) {
    start.variable.Some? ==> start.variable.value !in rec
  }

  lemma EvaluableEnds(g: Graph, rec: Record, ctx: Context, start: NodePattern, el: Element, scoped: bool)
    requires Evaluable(g, rec, ctx, start, el, scoped)
    ensures NodeEvaluates(start, rec, ctx) && NodeEvaluates(el.node, rec, ctx)
  {
  }

  lemma EvaluableHop(g: Graph, rec: Record, ctx: Context, start: NodePattern, el: Element, scoped: bool, nodes: seq<Node>, i: nat)
    requires Evaluable(g, rec, ctx, start, el, scoped) && i < |nodes| && Enumerates(nodes, StartSet(g, rec, ctx, start))
    ensures HopEvaluates(rec, ctx, start, el, scoped, nodes[i])
  {
    hide StartSet, HopEvaluates;
    assert nodes[i] in nodes;
  }

  lemma EvaluableBack(g: Graph, rec: Record, ctx: Context, start: NodePattern, el: Element, scoped: bool, bound: NodeId, e: Edge)
    requires Evaluable(g, rec, ctx, start, el, scoped) && (scoped ==> StartIsFree(rec, start))
    ensures BackEvaluates(g, rec, ctx, start, el, scoped, bound, e)
  {
    hide NodeEvaluates, RelEvaluates, NodeHolds;
    var far := Behind(el.rel.dir, e, bound);
    if scoped && far in g.nodes && NodeHolds(g.nodes[far], start, rec, ctx) {
      assert g.nodes[far] in StartSet(g, rec, ctx, start);
    }
  }

  // One candidate edge of the forward walk: None on error.
  method ForwardEdge(storage: MemoryStorage, rec: Record, ctx: Context, start: NodePattern, el: Element, scoped: bool,
                     want: Want, from: Node, e: Edge)
    returns (r: Option<bool>)
    ensures HopEvaluates(rec, ctx, start, el, scoped, from) ==>
              r == Some(ForwardKeeps(storage.View(), rec, ctx, start, el, scoped, want, from, e))
    ensures r == Some(true) ==> Far(el.rel.dir, e, from.id) in storage.nodes
  {
    hide NodeHolds, RelHolds, NodeMatches, RelMatches, NodeEvaluates, RelEvaluates;
    var scope := Scope(rec, start, from, scoped);
    if HopEvaluates(rec, ctx, start, el, scoped, from) {
      RelMatchesMeaning(e, el.rel, scope, ctx);
    }
    var m := RelMatches(e, el.rel, scope, ctx);
    if m != Some(true) {
      return m;
    }
    var next := storage.GetNode(Far(el.rel.dir, e, from.id));
    if next.None? || !Admits(want, Far(el.rel.dir, e, from.id)) {
      return Some(false);
    }
    if HopEvaluates(rec, ctx, start, el, scoped, from) {
      NodeMatchesMeaning(next.value, el.node, scope, ctx);
    }
    r := NodeMatches(next.value, el.node, scope, ctx);
  }

  // One edge of the reverse walk. EXISTS checks the relationship before the
  // start node; a comprehension needs the start node in scope first.
  method ReverseEdge(storage: MemoryStorage, rec: Record, ctx: Context, start: NodePattern, el: Element, scoped: bool,
                     bound: NodeId, e: Edge)
    returns (r: Option<bool>)
    ensures BackEvaluates(storage.View(), rec, ctx, start, el, scoped, bound, e) ==>
              r == Some(ReverseKeeps(storage.View(), rec, ctx, start, el, scoped, bound, e))
    ensures r == Some(true) ==> Behind(el.rel.dir, e, bound) in storage.nodes
  {
    hide NodeHolds, RelHolds, NodeMatches, RelMatches, NodeEvaluates, RelEvaluates;
    if !TypeOk(el.rel.relTypes, e.relType) {
      RelTypeFails(e, el.rel, rec, ctx, start, scoped);
      return Some(false);
    }
    if !scoped {
      if BackEvaluates(storage.View(), rec, ctx, start, el, scoped, bound, e) {
        RelMatchesMeaning(e, el.rel, rec, ctx);
      }
      var related := RelMatches(e, el.rel, rec, ctx);
      if related != Some(true) {
        return related;
      }
    }
    var far := storage.GetNode(Behind(el.rel.dir, e, bound));
    if far.None? {
      return Some(false);
    }
    if BackEvaluates(storage.View(), rec, ctx, start, el, scoped, bound, e) {
      NodeMatchesMeaning(far.value, start, rec, ctx);
      if NodeHolds(far.value, start, rec, ctx) {
        RelMatchesMeaning(e, el.rel, Scope(rec, start, far.value, scoped), ctx);
      }
    }
    r := NodeMatches(far.value, start, rec, ctx);
    if r == Some(true) && scoped {
      r := RelMatches(e, el.rel, Scope(rec, start, far.value, scoped), ctx);
    }
  }

  lemma RelTypeFails(e: Edge, rp: RelPattern, rec: Record, ctx: Context, start: NodePattern, scoped: bool)
    requires !TypeOk(rp.relTypes, e.relType)
    ensures forall r :: !RelHolds(e, rp, r, ctx)
  {
  }

  method EdgesInto(storage: MemoryStorage, dir: Direction, n: NodeId) returns (es: seq<Edge>)
    requires storage.Valid()
    ensures es == EdgesOf(storage.View(), ReverseCandidates(storage.View(), dir, n))
  {
    hide MemoryStorage.Valid, EdgesOf;
    EdgesOfAppend(storage.View(), InIds(storage.View(), n), OutIds(storage.View(), n));
    match dir
    case Outgoing => es := storage.IncomingEdges(n);
    case Incoming => es := storage.OutgoingEdges(n);
    case Undirected => es := storage.IncomingEdges(n) + storage.OutgoingEdges(n);
  }

  method ExistsForward(storage: MemoryStorage, rec: Record, ctx: Context, start: NodePattern, el: Element)
    returns (r: Option<bool>, ghost nodes: seq<Node>)
    requires storage.Valid()
    ensures Evaluable(storage.View(), rec, ctx, start, el, false) ==>
              && Enumerates(nodes, StartSet(storage.View(), rec, ctx, start))
              && r == Some(ForwardPairs(storage.View(), rec, ctx, start, el, false, WantOf(rec, el.node), nodes) != [])
  {
    hide MemoryStorage.Valid, ForwardKeeps, StartSet, Evaluable, HopEvaluates, CandidateEdges;
    var want := WantOf(rec, el.node);
    ghost var g := storage.View();
    ghost var safe := Evaluable(g, rec, ctx, start, el, false);
    var candidates := StartCandidates(storage, rec, ctx, start);
    if safe {
      EvaluableEnds(g, rec, ctx, start, el, false);
    }
    if candidates.None? {
      return None, [];
    }
    nodes := candidates.value;
    for i := 0 to |candidates.value|
      invariant safe ==> ForwardPairs(g, rec, ctx, start, el, false, want, nodes[..i]) == []
    {
      var from := candidates.value[i];
      assert Init(nodes[..i + 1]) == nodes[..i] && Last(nodes[..i + 1]) == from;
      if safe {
        EvaluableHop(g, rec, ctx, start, el, false, nodes, i);
      }
      var es := EdgesFrom(storage, el.rel.dir, from.id);
      for j := 0 to |es|
        invariant safe ==> ForwardEdges(g, rec, ctx, start, el, false, want, from, es[..j]) == []
      {
        assert Init(es[..j + 1]) == es[..j] && Last(es[..j + 1]) == es[j];
        var m := ForwardEdge(storage, rec, ctx, start, el, false, want, from, es[j]);
        if m.None? {
          return None, nodes;
        }
        if m.value {
          if safe {
            FoundStays(g, rec, ctx, start, el, false, want, nodes, i, es, j + 1);
          }
          return Some(true), nodes;
        }
      }
      assert es[..|es|] == es;
    }
    assert nodes[..|nodes|] == nodes;
    r := Some(false);
  }

  lemma {:induction false} PrefixFound(g: Graph, rec: Record, ctx: Context, start: NodePattern, el: Element, scoped: bool,
                                       want: Want, nodes: seq<Node>, i: nat)
    requires i <= |nodes| && ForwardPairs(g, rec, ctx, start, el, scoped, want, nodes[..i]) != []
    ensures ForwardPairs(g, rec, ctx, start, el, scoped, want, nodes) != []
    decreases |nodes| - i
  {
    if i == |nodes| {
      assert nodes[..i] == nodes;
    } else {
      assert Init(nodes[..i + 1]) == nodes[..i];
      PrefixFound(g, rec, ctx, start, el, scoped, want, nodes, i + 1);
    }
  }

  lemma {:induction false} PrefixEdgeFound(g: Graph, rec: Record, ctx: Context, start: NodePattern, el: Element,
                                           scoped: bool, want: Want, from: Node, es: seq<Edge>, j: nat)
    requires j <= |es| && ForwardEdges(g, rec, ctx, start, el, scoped, want, from, es[..j]) != []
    ensures ForwardEdges(g, rec, ctx, start, el, scoped, want, from, es) != []
    decreases |es| - j
  {
    if j == |es| {
      assert es[..j] == es;
    } else {
      assert Init(es[..j + 1]) == es[..j];
      PrefixEdgeFound(g, rec, ctx, start, el, scoped, want, from, es, j + 1);
    }
  }

  lemma FoundStays(g: Graph, rec: Record, ctx: Context, start: NodePattern, el: Element, scoped: bool,
                   want: Want, nodes: seq<Node>, i: nat, es: seq<Edge>, j: nat)
    requires i < |nodes| && j <= |es| && es == CandidateEdges(g, el.rel.dir, nodes[i].id)
    requires ForwardEdges(g, rec, ctx, start, el, scoped, want, nodes[i], es[..j]) != []
    ensures ForwardPairs(g, rec, ctx, start, el, scoped, want, nodes) != []
  {
    hide ForwardKeeps, CandidateEdges;
    PrefixEdgeFound(g, rec, ctx, start, el, scoped, want, nodes[i], es, j);
    var upTo := nodes[..i + 1];
    assert Last(upTo) == nodes[i] && upTo != [];
    assert ForwardPairs(g, rec, ctx, start, el, scoped, want, upTo)
        == ForwardPairs(g, rec, ctx, start, el, scoped, want, Init(upTo))
           + ForwardEdges(g, rec, ctx, start, el, scoped, want, Last(upTo), CandidateEdges(g, el.rel.dir, Last(upTo).id));
    PrefixFound(g, rec, ctx, start, el, scoped, want, nodes, i + 1);
  }

  method ExistsReverse(storage: MemoryStorage, rec: Record, ctx: Context, start: NodePattern, el: Element, bound: Node)
    returns (r: Option<bool>)
    requires storage.Valid()
    ensures Evaluable(storage.View(), rec, ctx, start, el, false) ==>
              r == Some(ReversePairs(storage.View(), rec, ctx, start, el, false, bound) != [])
  {
    hide MemoryStorage.Valid, ReverseKeeps, NodeEvaluates, RelEvaluates, NodeHolds, NodeMatches;
    ghost var g := storage.View();
    if Evaluable(storage.View(), rec, ctx, start, el, false) {
      NodeMatchesMeaning(bound, el.node, rec, ctx);
    }
    var terminal := NodeMatches(bound, el.node, rec, ctx);
    if terminal != Some(true) {
      return terminal;
    }
    var es := EdgesInto(storage, el.rel.dir, bound.id);
    for j := 0 to |es|
      invariant Evaluable(storage.View(), rec, ctx, start, el, false) ==> ReverseEdges(g, rec, ctx, start, el, false, bound.id, es[..j]) == []
    {
      assert Init(es[..j + 1]) == es[..j] && Last(es[..j + 1]) == es[j];
      if Evaluable(g, rec, ctx, start, el, false) {
        EvaluableBack(g, rec, ctx, start, el, false, bound.id, es[j]);
      }
      var m := ReverseEdge(storage, rec, ctx, start, el, false, bound.id, es[j]);
      if m.None? {
        return None;
      }
      if m.value {
        if Evaluable(storage.View(), rec, ctx, start, el, false) {
          ReverseFound(g, rec, ctx, start, el, bound.id, es, j + 1);
        }
        return Some(true);
      }
    }
    assert es[..|es|] == es;
    r := Some(false);
  }

  lemma {:induction false} ReverseFound(g: Graph, rec: Record, ctx: Context, start: NodePattern, el: Element,
                                        bound: NodeId, es: seq<Edge>, j: nat)
    requires j <= |es| && ReverseEdges(g, rec, ctx, start, el, false, bound, es[..j]) != []
    ensures ReverseEdges(g, rec, ctx, start, el, false, bound, es) != []
    decreases |es| - j
  {
    if j == |es| {
      assert es[..j] == es;
    } else {
      assert Init(es[..j + 1]) == es[..j];
      ReverseFound(g, rec, ctx, start, el, bound, es, j + 1);
    }
  }

  // A match of the hop: two nodes and the edge that joins them. A variable the
  // row binds holds its node; every property is compared on the row, to which a
  // comprehension adds the start node first, unless the far node is checked
  // early, before it is known.
  ghost predicate HopMatch(g: Graph, rec: Record, ctx: Context, start: NodePattern, el: Element, scoped: bool, early: bool,
                           from: Node, e: Edge, to: Node)
  {
    var row := if scoped && start.variable.Some? then rec[start.variable.value := NodeVal(from)] else rec;
    && (if start.variable.Some? && start.variable.value in rec then rec[start.variable.value] == NodeVal(from) else LiveNode(g, from))
    && NodeHolds(from, start, rec, ctx)
    && LiveEdge(g, e) && Joins(el.rel.dir, e, from.id, to.id) && LiveNode(g, to)
    && (el.node.variable.Some? && el.node.variable.value in rec ==>
          rec[el.node.variable.value].NodeVal? && rec[el.node.variable.value].node.id == to.id)
    && (el.rel.relTypes == [] || e.relType in el.rel.relTypes) && AllEqual(e.props, Inline(EntriesOf(el.rel.props)), row, ctx)
    && NodeHolds(to, el.node, if early then rec else row, ctx)
  }

  lemma ForwardMatches(g: Graph, rec: Record, ctx: Context, start: NodePattern, el: Element, scoped: bool, from: Node, e: Edge)
    requires GraphOk(g)
    ensures (from in StartSet(g, rec, ctx, start) && LiveEdge(g, e) && Leaves(el.rel.dir, e, from.id)
             && ForwardKeeps(g, rec, ctx, start, el, scoped, WantOf(rec, el.node), from, e)) <==>
            exists to :: HopMatch(g, rec, ctx, start, el, scoped, false, from, e, to)
  {
    hide NodeHolds, AllEqual, Leaves, Far, Joins;
    var next := Far(el.rel.dir, e, from.id);
    assert from in StartSet(g, rec, ctx, start) <==>
           (if start.variable.Some? && start.variable.value in rec then rec[start.variable.value] == NodeVal(from) else LiveNode(g, from))
           && NodeHolds(from, start, rec, ctx);
    forall to: Node ensures Joins(el.rel.dir, e, from.id, to.id) <==> Leaves(el.rel.dir, e, from.id) && next == to.id {
      JoinsMeans(el.rel.dir, e, from.id, to.id);
    }
    if next in g.nodes {
      assert HopMatch(g, rec, ctx, start, el, scoped, false, from, e, g.nodes[next]) <==>
             from in StartSet(g, rec, ctx, start) && LiveEdge(g, e) && Leaves(el.rel.dir, e, from.id)
             && ForwardKeeps(g, rec, ctx, start, el, scoped, WantOf(rec, el.node), from, e);
    }
    if to :| HopMatch(g, rec, ctx, start, el, scoped, false, from, e, to) {
      assert to.id == next && to == g.nodes[next];
    }
  }

  lemma BackwardMatches(g: Graph, rec: Record, ctx: Context, start: NodePattern, el: Element, scoped: bool, bound: Node, x: Pair)
    requires GraphOk(g) && LiveNode(g, bound) && StartIsFree(rec, start)
    requires el.node.variable.Some? && el.node.variable.value in rec && rec[el.node.variable.value] == NodeVal(bound)
    ensures (Arrives(g, rec, ctx, start, el, scoped, bound, x) && NodeHolds(bound, el.node, rec, ctx)) <==>
            exists to :: HopMatch(g, rec, ctx, start, el, scoped, true, x.from, x.edge, to)
  {
    hide NodeHolds, AllEqual, Leaves, Far, Joins;
    JoinsMeans(el.rel.dir, x.edge, x.from.id, bound.id);
    assert x.from in Matching(g, start, rec, ctx) <==> LiveNode(g, x.from) && NodeHolds(x.from, start, rec, ctx);
    assert HopMatch(g, rec, ctx, start, el, scoped, true, x.from, x.edge, bound) <==>
           Arrives(g, rec, ctx, start, el, scoped, bound, x) && NodeHolds(bound, el.node, rec, ctx);
    if to :| HopMatch(g, rec, ctx, start, el, scoped, true, x.from, x.edge, to) {
      assert to == bound;
    }
  }

  // The hop has a match.
  ghost predicate HopExists(g: Graph, rec: Record, ctx: Context, start: NodePattern, el: Element) {
    exists from, e :: from in StartSet(g, rec, ctx, start) && LiveEdge(g, e) && Leaves(el.rel.dir, e, from.id)
                   && ForwardKeeps(g, rec, ctx, start, el, false, WantOf(rec, el.node), from, e)
  }

  lemma ExistsMeans(g: Graph, rec: Record, ctx: Context, start: NodePattern, el: Element)
    requires GraphOk(g)
    ensures HopExists(g, rec, ctx, start, el) <==>
            exists from, e, to :: HopMatch(g, rec, ctx, start, el, false, false, from, e, to)
  {
    hide HopMatch, ForwardKeeps, StartSet, Leaves;
    if HopExists(g, rec, ctx, start, el) {
      var from, e :| from in StartSet(g, rec, ctx, start) && LiveEdge(g, e) && Leaves(el.rel.dir, e, from.id)
                     && ForwardKeeps(g, rec, ctx, start, el, false, WantOf(rec, el.node), from, e);
      ForwardMatches(g, rec, ctx, start, el, false, from, e);
    }
    if from, e, to :| HopMatch(g, rec, ctx, start, el, false, false, from, e, to) {
      ForwardMatches(g, rec, ctx, start, el, false, from, e);
    }
  }

  lemma PairsMeanExists(g: Graph, rec: Record, ctx: Context, start: NodePattern, el: Element, nodes: seq<Node>)
    requires GraphOk(g) && Enumerates(nodes, StartSet(g, rec, ctx, start))
    ensures ForwardPairs(g, rec, ctx, start, el, false, WantOf(rec, el.node), nodes) != [] <==>
            HopExists(g, rec, ctx, start, el)
  {
    hide ForwardKeeps, StartSet, CandidateEdges;
    var want := WantOf(rec, el.node);
    var pairs := ForwardPairs(g, rec, ctx, start, el, false, want, nodes);
    if pairs != [] {
      var x := pairs[0];
      assert multiset(pairs)[x] > 0;
      ForwardPairsCount(g, rec, ctx, start, el, false, want, nodes, x);
      CandidateEdgeCount(g, el.rel.dir, x.from.id, x.edge);
    }
    if HopExists(g, rec, ctx, start, el) {
      var from, e :| from in StartSet(g, rec, ctx, start) && LiveEdge(g, e) && Leaves(el.rel.dir, e, from.id)
                     && ForwardKeeps(g, rec, ctx, start, el, false, want, from, e);
      ForwardPairsCount(g, rec, ctx, start, el, false, want, nodes, Pair(from, e));
      CandidateEdgeCount(g, el.rel.dir, from.id, e);
    }
  }

  // `eval_exists` on a single hop, reverse walk included: with bound nodes in
  // step with storage the answer is whether the hop has a match.
  method EvalExistsHop(storage: MemoryStorage, rec: Record, ctx: Context, start: NodePattern, el: Element)
    returns (r: Option<bool>)
    requires storage.Valid()
    requires el.node.variable.Some? && el.node.variable.value in rec && rec[el.node.variable.value].NodeVal? ==>
               LiveNode(storage.View(), rec[el.node.variable.value].node)
    ensures Evaluable(storage.View(), rec, ctx, start, el, false) ==> r == Some(HopExists(storage.View(), rec, ctx, start, el))
    ensures Evaluable(storage.View(), rec, ctx, start, el, false) ==>
              r == Some(exists from, e, to :: HopMatch(storage.View(), rec, ctx, start, el, false, false, from, e, to))
  {
    hide MemoryStorage.Valid, HopExists, HopMatch, ForwardKeeps, NodeEvaluates, RelEvaluates, ForwardPairs, ReversePairs;
    ghost var g := storage.View();
    StorageIsOk(storage);
    ExistsMeans(g, rec, ctx, start, el);
    var startIsBound := start.variable.Some? && start.variable.value in rec;
    if el.node.variable.Some? && el.node.variable.value in rec && rec[el.node.variable.value].NodeVal? && !startIsBound {
      var bound := rec[el.node.variable.value].node;
      r := ExistsReverse(storage, rec, ctx, start, el, bound);
      ghost var nodes := SomeEnumeration(StartSet(g, rec, ctx, start));
      IndependentAgrees(g, rec, ctx, start, el, false, bound);
      ReverseEqualsForward(g, rec, ctx, start, el, false, bound, nodes);
      SameEmptiness(ReversePairs(g, rec, ctx, start, el, false, bound),
                    ForwardPairs(g, rec, ctx, start, el, false, OnlyNode(bound.id), nodes));
      PairsMeanExists(g, rec, ctx, start, el, nodes);
      return;
    }
    ghost var nodes;
    r, nodes := ExistsForward(storage, rec, ctx, start, el);
    if Evaluable(storage.View(), rec, ctx, start, el, false) {
      PairsMeanExists(g, rec, ctx, start, el, nodes);
    }
  }

  lemma SameEmptiness(a: seq<Pair>, b: seq<Pair>)
    requires multiset(a) == multiset(b)
    ensures a == [] <==> b == []
  {
    assert |multiset(a)| == |a| && |multiset(b)| == |b|;
  }
}
