// MERGE of a relationship chain, without ON CREATE and ON MATCH items: walk the
// pattern over the graph, and create it when no walk gets through.

module ChainMerge {
  import opened GraphTypes
  import opened Sequences
  import opened AbstractGraph
  import opened NodeLookup
  import opened MemoryStorages
  import opened Trails
  import opened Expressions
  import opened Planner
  import opened MatchExecution
  import opened CreateClauses

  datatype Candidate = Candidate(rec: Record, at: NodeId)

  predicate NodeFits(n: Node, labels: seq<string>, props: Props) {
    && (forall l :: l in labels ==> l in n.labels)
    && (forall k :: k in props ==> k in n.props && PropEq(n.props[k], props[k]))
  }

  predicate PropsMatch(actual: Props, required: Props) {
    forall k :: k in required ==> k in actual && PropEq(actual[k], required[k])
  }

  // --- Seeds ---

  // The candidates at the start, `found` being the nodes that fit an unbound start.
  function Seeds(rec: Record, start: NodePattern, ctx: Context, found: seq<Node>): Option<seq<Candidate>> {
    var props := PatternProps(start.props, rec, ctx);
    if props.None? then None
    else if BoundNode(rec, start.variable) then
      var n := rec[start.variable.value].node;
      Some(if NodeFits(n, start.labels, props.value) then [Candidate(rec, n.id)] else [])
    else Some(Started(rec, start, found))
  }

  function Started(rec: Record, start: NodePattern, found: seq<Node>): (r: seq<Candidate>)
    ensures |r| == |found|
    ensures forall i :: 0 <= i < |found| ==> r[i] == Candidate(BindIf(rec, start.variable, NodeVal(found[i])), found[i].id)
  {
    seq(|found|, i requires 0 <= i < |found| => Candidate(BindIf(rec, start.variable, NodeVal(found[i])), found[i].id))
  }

  function IdsOf(nodes: seq<Node>): (r: seq<NodeId>)
    ensures |r| == |nodes|
  {
    seq(|nodes|, i requires 0 <= i < |nodes| => nodes[i].id)
  }

  // What the storage may find for the start of a row.
  ghost predicate StartFound(g: Graph, rec: Record, start: NodePattern, ctx: Context, found: seq<Node>) {
    var props := PatternProps(start.props, rec, ctx);
    if props.None? || BoundNode(rec, start.variable) then found == []
    else
      && Finds(g, start.labels, props.value, IdsOf(found))
      && forall i :: 0 <= i < |found| ==> found[i].id in g.nodes && g.nodes[found[i].id] == found[i]
  }

  method NodesBehind(storage: MemoryStorage, ids: seq<NodeId>) returns (nodes: seq<Node>)
    requires storage.Valid()
    requires forall i :: 0 <= i < |ids| ==> ids[i] in storage.nodes
    ensures IdsOf(nodes) == ids
    ensures forall i :: 0 <= i < |nodes| ==> nodes[i].id in storage.nodes && storage.nodes[nodes[i].id] == nodes[i]
  {
    nodes := [];
    for i := 0 to |ids|
      invariant |nodes| == i
      invariant forall k :: 0 <= k < i ==> nodes[k].id == ids[k] && storage.nodes[ids[k]] == nodes[k]
    {
      var node := storage.GetNode(ids[i]);
      if node.None? {
        continue;
      }
      nodes := nodes + [node.value];
    }
  }

  method SeedCandidates(storage: MemoryStorage, rec: Record, start: NodePattern, ctx: Context)
    returns (r: Option<seq<Candidate>>, ghost found: seq<Node>)
    requires storage.Valid()
    ensures StartFound(storage.View(), rec, start, ctx, found)
    ensures r == Seeds(rec, start, ctx, found)
  {
    hide MemoryStorage.Valid, PatternProps;
    found := [];
    var props := ResolveProperties(start.props, rec, ctx);
    if props.None? {
      return None, found;
    }
    if BoundNode(rec, start.variable) {
      var n := rec[start.variable.value].node;
      if !NodeFits(n, start.labels, props.value) {
        return Some([]), found;
      }
      return Some([Candidate(rec, n.id)]), found;
    }
    var ids := storage.FindNodes(start.labels, props.value);
    FindsMeans(storage.View(), start.labels, props.value, ids);
    FoundAreLive(storage.View(), start.labels, props.value, ids);
    var nodes := NodesBehind(storage, ids);
    found := nodes;
    hide FindSet, NoDup;
    r := Some(Started(rec, start, nodes));
  }

  lemma FoundAreLive(g: Graph, labels: seq<string>, props: Props, ids: seq<NodeId>)
    requires forall i :: i in ids ==> i in FindSet(g, labels, props)
    ensures forall i :: 0 <= i < |ids| ==> ids[i] in g.nodes
  {
    forall i | 0 <= i < |ids| ensures ids[i] in g.nodes {
      assert ids[i] in ids;
    }
  }

  // --- One element ---

  function BoundId(rec: Record, variable: Option<string>): Option<NodeId> {
    if BoundNode(rec, variable) then Some(rec[variable.value].node.id) else None
  }

  // The edges the endpoint index gives.
  ghost function Between(g: Graph, src: NodeId, relType: string, dst: NodeId): seq<Edge> {
    ScanBetween(EdgesOf(g, OutIds(g, src)), relType, dst)
  }

  // Those of one type between two nodes, in the order probed.
  ghost function Probed(g: Graph, dir: Direction, prev: NodeId, dst: NodeId, relType: string): seq<Edge> {
    match dir
    case Outgoing => Between(g, prev, relType, dst)
    case Incoming => Between(g, dst, relType, prev)
    case Undirected => Between(g, prev, relType, dst) + Between(g, dst, relType, prev)
  }

  ghost function ProbedAll(g: Graph, dir: Direction, prev: NodeId, dst: NodeId, relTypes: seq<string>): seq<Edge> {
    if relTypes == [] then []
    else ProbedAll(g, dir, prev, dst, Init(relTypes)) + Probed(g, dir, prev, dst, Last(relTypes))
  }

  ghost function EdgesFor(g: Graph, rel: RelPattern, prev: NodeId, bound: Option<NodeId>): seq<Edge> {
    if bound.Some? && rel.relTypes != [] then ProbedAll(g, rel.dir, prev, bound.value, rel.relTypes)
    else CandidateEdges(g, rel.dir, prev)
  }

  // The filters on an edge and on the node it leads to.
  predicate Passes(g: Graph, el: Element, prev: NodeId, bound: Option<NodeId>, relProps: Props, nodeProps: Props, e: Edge) {
    var other := Far(el.rel.dir, e, prev);
    && TypeOk(el.rel.relTypes, e.relType) && PropsMatch(e.props, relProps)
    && (bound.Some? ==> bound.value == other)
    && other in g.nodes && NodeFits(g.nodes[other], el.node.labels, nodeProps)
  }

  function Advanced(g: Graph, rec: Record, el: Element, prev: NodeId, e: Edge): Candidate
    requires Far(el.rel.dir, e, prev) in g.nodes
  {
    var other := Far(el.rel.dir, e, prev);
    Candidate(BindIf(BindIf(rec, el.rel.variable, RelVal(e)), el.node.variable, NodeVal(g.nodes[other])), other)
  }

  function Through(g: Graph, el: Element, c: Candidate, relProps: Props, nodeProps: Props, es: seq<Edge>): seq<Candidate>
    decreases |es|
  {
    if es == [] then []
    else
      Through(g, el, c, relProps, nodeProps, Init(es))
      + if Passes(g, el, c.at, BoundId(c.rec, el.node.variable), relProps, nodeProps, Last(es))
        then [Advanced(g, c.rec, el, c.at, Last(es))] else []
  }

  ghost function Expanded(g: Graph, el: Element, c: Candidate, ctx: Context): Option<seq<Candidate>> {
    var (relProps, nodeProps) := (PatternProps(el.rel.props, c.rec, ctx), PatternProps(el.node.props, c.rec, ctx));
    if relProps.None? || nodeProps.None? then None
    else
      Some(Through(g, el, c, relProps.value, nodeProps.value,
                   EdgesFor(g, el.rel, c.at, BoundId(c.rec, el.node.variable))))
  }

  method ProbeType(storage: MemoryStorage, dir: Direction, prev: NodeId, dst: NodeId, relType: string) returns (es: seq<Edge>)
    requires storage.Valid()
    ensures es == Probed(storage.View(), dir, prev, dst, relType)
  {
    hide MemoryStorage.Valid, ScanBetween;
    match dir
    case Outgoing => es := storage.EdgesBetween(prev, relType, dst);
    case Incoming => es := storage.EdgesBetween(dst, relType, prev);
    case Undirected =>
      es := storage.EdgesBetween(prev, relType, dst);
      es := es + storage.EdgesBetween(dst, relType, prev);
  }

  method EdgesForElement(storage: MemoryStorage, rel: RelPattern, prev: NodeId, bound: Option<NodeId>) returns (es: seq<Edge>)
    requires storage.Valid()
    ensures es == EdgesFor(storage.View(), rel, prev, bound)
  {
    hide MemoryStorage.Valid, Probed;
    if bound.None? || rel.relTypes == [] {
      es := EdgesFrom(storage, rel.dir, prev);
      return;
    }
    es := [];
    for i := 0 to |rel.relTypes|
      invariant es == ProbedAll(storage.View(), rel.dir, prev, bound.value, rel.relTypes[..i])
    {
      assert Init(rel.relTypes[..i + 1]) == rel.relTypes[..i] && Last(rel.relTypes[..i + 1]) == rel.relTypes[i];
      var more := ProbeType(storage, rel.dir, prev, bound.value, rel.relTypes[i]);
      es := es + more;
    }
    assert rel.relTypes[..|rel.relTypes|] == rel.relTypes;
  }

  method ExpandCandidate(storage: MemoryStorage, c: Candidate, el: Element, ctx: Context) returns (r: Option<seq<Candidate>>)
    requires storage.Valid()
    ensures r == Expanded(storage.View(), el, c, ctx)
  {
    hide MemoryStorage.Valid, PatternProps, NodeFits, PropsMatch, EdgesFor;
    var relProps := ResolveProperties(el.rel.props, c.rec, ctx);
    if relProps.None? {
      return None;
    }
    var nodeProps := ResolveProperties(el.node.props, c.rec, ctx);
    if nodeProps.None? {
      return None;
    }
    var bound := BoundId(c.rec, el.node.variable);
    var edges := EdgesForElement(storage, el.rel, c.at, bound);
    var next: seq<Candidate> := [];
    for i := 0 to |edges|
      invariant next == Through(storage.View(), el, c, relProps.value, nodeProps.value, edges[..i])
    {
      assert Init(edges[..i + 1]) == edges[..i] && Last(edges[..i + 1]) == edges[i];
      var e := edges[i];
      if !TypeOk(el.rel.relTypes, e.relType) || !PropsMatch(e.props, relProps.value) {
        continue;
      }
      var other := Far(el.rel.dir, e, c.at);
      if bound.Some? && bound.value != other {
        continue;
      }
      var dst := storage.GetNode(other);
      if dst.None? || !NodeFits(dst.value, el.node.labels, nodeProps.value) {
        continue;
      }
      next := next + [Candidate(BindIf(BindIf(c.rec, el.rel.variable, RelVal(e)), el.node.variable, NodeVal(dst.value)), other)];
    }
    assert edges[..|edges|] == edges;
    r := Some(next);
  }

  // --- The walk ---

  ghost function ExpandedAll(g: Graph, el: Element, cs: seq<Candidate>, ctx: Context): Option<seq<Candidate>>
    decreases |cs|
  {
    if cs == [] then Some([])
    else
      var (before, last) := (ExpandedAll(g, el, Init(cs), ctx), Expanded(g, el, Last(cs), ctx));
      if before.None? || last.None? then None else Some(before.value + last.value)
  }

  // Once no candidate is left the rest of the pattern is not looked at.
  ghost function Walked(g: Graph, elements: seq<Element>, seeds: seq<Candidate>, ctx: Context): Option<seq<Candidate>>
    decreases |elements|
  {
    if elements == [] then Some(seeds)
    else
      var before := Walked(g, Init(elements), seeds, ctx);
      if before.None? || before.value == [] then before else ExpandedAll(g, Last(elements), before.value, ctx)
  }

  lemma {:induction false} ExpandedFails(g: Graph, el: Element, cs: seq<Candidate>, ctx: Context, i: nat)
    requires i <= |cs| && ExpandedAll(g, el, cs[..i], ctx).None?
    ensures ExpandedAll(g, el, cs, ctx).None?
    decreases |cs| - i
  {
    hide Expanded;
    if i == |cs| {
      assert cs[..i] == cs;
    } else {
      assert Init(cs[..i + 1]) == cs[..i];
      ExpandedFails(g, el, cs, ctx, i + 1);
    }
  }

  lemma {:induction false} WalkEnds(g: Graph, elements: seq<Element>, seeds: seq<Candidate>, ctx: Context, i: nat)
    requires i <= |elements|
    requires Walked(g, elements[..i], seeds, ctx).None? || Walked(g, elements[..i], seeds, ctx) == Some([])
    ensures Walked(g, elements, seeds, ctx) == Walked(g, elements[..i], seeds, ctx)
    decreases |elements| - i
  {
    hide ExpandedAll;
    if i == |elements| {
      assert elements[..i] == elements;
    } else {
      assert Init(elements[..i + 1]) == elements[..i];
      WalkEnds(g, elements, seeds, ctx, i + 1);
    }
  }

  method ExpandAll(storage: MemoryStorage, cs: seq<Candidate>, el: Element, ctx: Context) returns (r: Option<seq<Candidate>>)
    requires storage.Valid()
    ensures r == ExpandedAll(storage.View(), el, cs, ctx)
  {
    hide MemoryStorage.Valid, Expanded;
    var next: seq<Candidate> := [];
    for i := 0 to |cs|
      invariant ExpandedAll(storage.View(), el, cs[..i], ctx) == Some(next)
    {
      assert Init(cs[..i + 1]) == cs[..i] && Last(cs[..i + 1]) == cs[i];
      var more := ExpandCandidate(storage, cs[i], el, ctx);
      if more.None? {
        ExpandedFails(storage.View(), el, cs, ctx, i + 1);
        return None;
      }
      next := next + more.value;
    }
    assert cs[..|cs|] == cs;
    r := Some(next);
  }

  method WalkChain(storage: MemoryStorage, elements: seq<Element>, seeds: seq<Candidate>, ctx: Context)
    returns (r: Option<seq<Candidate>>)
    requires storage.Valid()
    ensures r == Walked(storage.View(), elements, seeds, ctx)
  {
    hide MemoryStorage.Valid, ExpandedAll;
    r := Some(seeds);
    for i := 0 to |elements|
      invariant r.Some? && r == Walked(storage.View(), elements[..i], seeds, ctx)
    {
      assert Init(elements[..i + 1]) == elements[..i] && Last(elements[..i + 1]) == elements[i];
      if r.value == [] {
        WalkEnds(storage.View(), elements, seeds, ctx, i);
        return;
      }
      r := ExpandAll(storage, r.value, elements[i], ctx);
      if r.None? {
        WalkEnds(storage.View(), elements, seeds, ctx, i + 1);
        return;
      }
    }
    assert elements[..|elements|] == elements;
  }

  // --- Rows ---

  ghost function Matches(g: Graph, rec: Record, start: NodePattern, elements: seq<Element>, ctx: Context, found: seq<Node>):
    Option<seq<Candidate>>
  {
    var seeds := Seeds(rec, start, ctx, found);
    if seeds.None? then None else Walked(g, elements, seeds.value, ctx)
  }

  function RecordsOf(cs: seq<Candidate>): seq<Record> {
    seq(|cs|, i requires 0 <= i < |cs| => cs[i].rec)
  }

  // One row: its matches if there are any, else the chain created.
  ghost function RowChainMerged(g: Graph, rec: Record, start: NodePattern, elements: seq<Element>, ctx: Context, found: seq<Node>):
    (Graph, Option<seq<Record>>)
  {
    var matches := Matches(g, rec, start, elements, ctx, found);
    if matches.None? then (g, None)
    else if matches.value != [] then (g, Some(RecordsOf(matches.value)))
    else
      var p := ChainPlaced(g, rec, start, elements, ctx);
      (p.g, if p.at.None? then None else Some([p.at.value.1]))
  }

  method MergeChainRow(storage: MemoryStorage, rec: Record, start: NodePattern, elements: seq<Element>, ctx: Context)
    returns (r: Option<seq<Record>>, ghost found: seq<Node>)
    requires storage.Valid()
    modifies storage
    ensures storage.Valid()
    ensures StartFound(old(storage.View()), rec, start, ctx, found)
    ensures (storage.View(), r) == RowChainMerged(old(storage.View()), rec, start, elements, ctx, found)
  {
    hide MemoryStorage.Valid, Seeds, Walked, ChainPlaced, StartFound;
    var seeds;
    seeds, found := SeedCandidates(storage, rec, start, ctx);
    if seeds.None? {
      return None, found;
    }
    var matches := WalkChain(storage, elements, seeds.value, ctx);
    if matches.None? {
      return None, found;
    }
    if matches.value != [] {
      r := Some(RecordsOf(matches.value));
    } else {
      var placed := PlaceChain(storage, rec, start, elements, ctx);
      ghost var p := ChainPlaced(old(storage.View()), rec, start, elements, ctx);
      assert p.at == placed;
      r := if placed.None? then None else Some([placed.value.1]);
    }
  }

  // The clause over its rows, each against the graph the ones before it left;
  // `found` says what was found at the start of each.
  ghost function ChainRun(g: Graph, recs: seq<Record>, start: NodePattern, elements: seq<Element>, ctx: Context, found: seq<seq<Node>>):
    (Graph, Option<seq<Record>>)
    requires |found| == |recs|
    decreases |recs|
  {
    if recs == [] then (g, Some([]))
    else
      var (h, done) := ChainRun(g, Init(recs), start, elements, ctx, Init(found));
      if done.None? then (h, None)
      else
        var (k, rows) := RowChainMerged(h, Last(recs), start, elements, ctx, Last(found));
        (k, if rows.None? then None else Some(done.value + rows.value))
  }

  // Every row that ran found what the storage may find on the graph as it then was.
  ghost predicate StartsFound(g: Graph, recs: seq<Record>, start: NodePattern, elements: seq<Element>, ctx: Context, found: seq<seq<Node>>)
    requires |found| == |recs|
    decreases |recs|
  {
    recs == []
    || var (h, done) := ChainRun(g, Init(recs), start, elements, ctx, Init(found));
       && StartsFound(g, Init(recs), start, elements, ctx, Init(found))
       && (done.Some? ==> StartFound(h, Last(recs), start, ctx, Last(found)))
  }

  // `n` rows ran; when one failed it was the last of them.
  method ExecuteMergeChain(storage: MemoryStorage, inputRows: seq<Record>, start: NodePattern, elements: seq<Element>, ctx: Context)
    returns (r: Option<seq<Record>>, ghost n: nat, ghost found: seq<seq<Node>>)
    requires storage.Valid()
    modifies storage
    ensures storage.Valid()
    ensures |found| == n <= |BaseRows(inputRows)| && (r.Some? ==> n == |BaseRows(inputRows)|)
    ensures StartsFound(old(storage.View()), BaseRows(inputRows)[..n], start, elements, ctx, found)
    ensures (storage.View(), r) == ChainRun(old(storage.View()), BaseRows(inputRows)[..n], start, elements, ctx, found)
  {
    hide MemoryStorage.Valid, RowChainMerged, StartFound;
    var rows := BaseRows(inputRows);
    var result: seq<Record> := [];
    found, n := [], 0;
    for i := 0 to |rows|
      invariant storage.Valid() && n == i && |found| == i
      invariant StartsFound(old(storage.View()), rows[..i], start, elements, ctx, found)
      invariant (storage.View(), Some(result)) == ChainRun(old(storage.View()), rows[..i], start, elements, ctx, found)
    {
      assert Init(rows[..i + 1]) == rows[..i] && Last(rows[..i + 1]) == rows[i];
      var more; ghost var nodes;
      more, nodes := MergeChainRow(storage, rows[i], start, elements, ctx);
      assert Init(found + [nodes]) == found && Last(found + [nodes]) == nodes;
      found, n := found + [nodes], i + 1;
      if more.None? {
        return None, n, found;
      }
      result := result + more.value;
    }
    r := Some(result);
  }
}
