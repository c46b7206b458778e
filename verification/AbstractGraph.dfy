// The property graph every component is specified against: nodes with labels
// and properties, directed typed edges, and the two identifier counters.

module AbstractGraph {
  import opened GraphTypes
  import opened Sequences
  import opened Floats

  datatype Graph = Graph(
    nodes: map<NodeId, Node>,
    edges: map<EdgeId, Edge>,
    nextNode: NodeId,
    nextEdge: EdgeId)

  datatype StorageError =
    | SourceNotFound(node: NodeId)
    | DestinationNotFound(node: NodeId)
    | NodeNotFound(node: NodeId)
    | StillHasRelationships(node: NodeId)
    | EdgeNotFound(edge: EdgeId)
    | UniqueViolation(lab: string, key: string)
    | NotNullViolation(lab: string, key: string)
    | NodeKeyViolation(lab: string)
    | PropertyTypeViolation(lab: string, key: string)

  datatype Outcome<+T> = Ok(value: T) | Err(error: StorageError)

  const EmptyGraph := Graph(map[], map[], 0, 0)

  // Every table is keyed by the entity's own id, ids in use are below the
  // counters, and no edge dangles.
  ghost predicate GraphOk(g: Graph) {
    && (forall n :: n in g.nodes ==> g.nodes[n].id == n && n < g.nextNode)
    && (forall e :: e in g.edges ==> g.edges[e].id == e && e < g.nextEdge)
    && (forall e :: e in g.edges ==> g.edges[e].src in g.nodes && g.edges[e].dst in g.nodes)
  }

  ghost function OutSet(edges: map<EdgeId, Edge>, n: NodeId): set<EdgeId> {
    set e | e in edges && edges[e].src == n
  }

  ghost function InSet(edges: map<EdgeId, Edge>, n: NodeId): set<EdgeId> {
    set e | e in edges && edges[e].dst == n
  }

  ghost function BetweenSet(edges: map<EdgeId, Edge>, k: (NodeId, string, NodeId)): set<EdgeId> {
    set e | e in edges && edges[e].src == k.0 && edges[e].relType == k.1 && edges[e].dst == k.2
  }

  // Adjacency in creation order.
  ghost function OutIds(g: Graph, n: NodeId): seq<EdgeId> { SortedIds(OutSet(g.edges, n)) }

  ghost function InIds(g: Graph, n: NodeId): seq<EdgeId> { SortedIds(InSet(g.edges, n)) }

  // The edges behind a list of live ids.
  ghost function EdgesOf(g: Graph, ids: seq<EdgeId>): (r: seq<Edge>)
    requires forall e :: e in ids ==> e in g.edges
    ensures |r| == |ids|
  {
    seq(|ids|, j requires 0 <= j < |ids| => g.edges[ids[j]])
  }

  // The default `edges_between`: filter the outgoing edges.
  function ScanBetween(out: seq<Edge>, relType: string, dst: NodeId): seq<Edge> {
    if out == [] then []
    else if out[0].relType == relType && out[0].dst == dst then [out[0]] + ScanBetween(out[1..], relType, dst)
    else ScanBetween(out[1..], relType, dst)
  }

  // The edges of the type to the node, and no other, in their order.
  lemma {:induction false} BetweenMeans(out: seq<Edge>, relType: string, dst: NodeId) returns (at: seq<nat>)
    ensures PickedAt(ScanBetween(out, relType, dst), out, at)
    ensures forall i :: i in at <==> 0 <= i < |out| && out[i].relType == relType && out[i].dst == dst
    decreases |out|
  {
    if out == [] {
      at := [];
    } else {
      hide PickedAt;
      var rest := BetweenMeans(out[1..], relType, dst);
      var later := PickOneEarlier(ScanBetween(out[1..], relType, dst), out[1..], rest, out[0]);
      at := if out[0].relType == relType && out[0].dst == dst then [0] + later else later;
      assert out == [out[0]] + out[1..];
    }
  }

  ghost predicate HasLabels(n: Node, labels: seq<string>) {
    forall l :: l in labels ==> l in n.labels
  }

  // The precise property comparison of the scans: `==` on every required pair.
  ghost predicate HasProps(actual: Props, required: Props) {
    forall k :: k in required ==> k in actual && PropEq(actual[k], required[k])
  }

  // The comparison an index probe makes: identity, floats by their bits.
  ghost predicate HasPropsByKey(actual: Props, required: Props) {
    forall k :: k in required ==> k in actual && actual[k] == required[k]
  }

  predicate LabelMatches(n: Node, lab: Option<string>) {
    lab.Some? ==> lab.value in n.labels
  }

  // What a scan with a precise filter returns, and what an index probe returns.
  ghost function PlainScan(g: Graph, lab: Option<string>, props: Props): set<Node> {
    set i | i in g.nodes && LabelMatches(g.nodes[i], lab) && HasProps(g.nodes[i].props, props) :: g.nodes[i]
  }

  ghost function IndexScan(g: Graph, lab: Option<string>, props: Props): set<Node> {
    set i | i in g.nodes && LabelMatches(g.nodes[i], lab) && HasPropsByKey(g.nodes[i].props, props) :: g.nodes[i]
  }

  ghost function LabelScan(g: Graph, lab: Option<string>): set<Node> {
    set i | i in g.nodes && LabelMatches(g.nodes[i], lab) :: g.nodes[i]
  }

  // Nodes found by label set and properties, under the precise filter.
  ghost function FindSet(g: Graph, labels: seq<string>, props: Props): set<NodeId> {
    set i | i in g.nodes && HasLabels(g.nodes[i], labels) && HasProps(g.nodes[i].props, props)
  }

  // The index probe returns what the scan returns on every graph exactly when
  // no required value is a NaN or a zero.
  lemma IndexScanIsTight(lab: Option<string>, props: Props)
    ensures AllExact(props) <==> forall g :: GraphOk(g) ==> IndexScan(g, lab, props) == PlainScan(g, lab, props)
  {
    if AllExact(props) {
      forall g | GraphOk(g) ensures IndexScan(g, lab, props) == PlainScan(g, lab, props) {
        IndexScanAgrees(g, lab, props);
      }
    } else {
      var labels := if lab.Some? then [lab.value] else [];
      var k :| k in props && !Exact(props[k]);
      var other := Float(if props[k].f == 0 then TWO63 else 0);
      var stored := if exists j :: j in props && !NotNaN(props[j]) then props else props[k := other];
      var g := AddNode(EmptyGraph, labels, stored);
      var n := g.nodes[0];
      assert GraphOk(g) && LabelMatches(n, lab);
      if exists j :: j in props && !NotNaN(props[j]) {
        var j :| j in props && !NotNaN(props[j]);
        assert !PropEq(stored[j], props[j]);
        assert n in IndexScan(g, lab, props) && n !in PlainScan(g, lab, props);
      } else {
        assert !HasPropsByKey(stored, props);
        assert HasProps(stored, props);
        assert n in PlainScan(g, lab, props) && n !in IndexScan(g, lab, props);
      }
    }
  }

  lemma IndexScanAgrees(g: Graph, lab: Option<string>, props: Props)
    requires AllExact(props)
    ensures IndexScan(g, lab, props) == PlainScan(g, lab, props)
  {
    forall i | i in g.nodes ensures HasProps(g.nodes[i].props, props) <==> HasPropsByKey(g.nodes[i].props, props) {
      PropsAgreeWhenExact(g.nodes[i].props, props);
    }
  }

  lemma PropsAgreeWhenExact(actual: Props, required: Props)
    requires AllExact(required)
    ensures HasProps(actual, required) <==> HasPropsByKey(actual, required)
  {
    forall k | k in required && k in actual
      ensures PropEq(actual[k], required[k]) <==> actual[k] == required[k]
    {
      ExactIsTight(required[k]);
    }
  }

  // --- What each mutator does to the graph ---

  function AddNode(g: Graph, labels: seq<string>, props: Props): Graph {
    g.(nodes := g.nodes[g.nextNode := Node(g.nextNode, labels, props)], nextNode := g.nextNode + 1)
  }

  function AddEdge(g: Graph, relType: string, src: NodeId, dst: NodeId, props: Props): (Graph, Outcome<EdgeId>) {
    if src !in g.nodes then (g, Err(SourceNotFound(src)))
    else if dst !in g.nodes then (g, Err(DestinationNotFound(dst)))
    else
      (g.(edges := g.edges[g.nextEdge := Edge(g.nextEdge, relType, src, dst, props)], nextEdge := g.nextEdge + 1),
       Ok(g.nextEdge))
  }

  function PutNode(g: Graph, id: NodeId, labels: seq<string>, props: Props): Graph {
    if id in g.nodes then g.(nodes := g.nodes[id := g.nodes[id].(labels := labels, props := props)]) else g
  }

  function SetNodeProps(g: Graph, id: NodeId, props: Props): Graph {
    if id in g.nodes then PutNode(g, id, g.nodes[id].labels, props) else g
  }

  function SetEdgeProps(g: Graph, id: EdgeId, props: Props): Graph {
    if id in g.edges then g.(edges := g.edges[id := g.edges[id].(props := props)]) else g
  }

  function LabelsAfterAdd(cur: seq<string>, more: seq<string>): (r: seq<string>)
    ensures forall l :: l in r <==> l in cur || l in more
    decreases |more|
  {
    if more == [] then cur
    else LabelsAfterAdd(if more[0] in cur then cur else cur + [more[0]], more[1..])
  }

  function LabelsAfterRemove(cur: seq<string>, gone: seq<string>): (r: seq<string>)
    ensures forall l :: l in r <==> l in cur && l !in gone
    decreases |gone|
  {
    if gone == [] then cur else LabelsAfterRemove(Without(cur, gone[0]), gone[1..])
  }

  // Labels already there stay where they are; the new ones follow in the order
  // they were given, none of them twice.
  lemma {:induction false} LabelsFollow(cur: seq<string>, more: seq<string>) returns (at: seq<nat>)
    ensures cur <= LabelsAfterAdd(cur, more)
    ensures PickedAt(LabelsAfterAdd(cur, more)[|cur|..], more, at)
    ensures NoDup(cur) ==> NoDup(LabelsAfterAdd(cur, more))
    decreases |more|
  {
    if more == [] {
      at := [];
    } else {
      var next := if more[0] in cur then cur else cur + [more[0]];
      if more[0] !in cur { NoDupAppend(cur, more[0]); }
      var rest := LabelsFollow(next, more[1..]);
      at := PickLater(LabelsAfterAdd(next, more[1..]), cur, more, rest);
    }
  }

  lemma PickLater(r: seq<string>, cur: seq<string>, more: seq<string>, rest: seq<nat>) returns (at: seq<nat>)
    requires more != []
    requires var next := if more[0] in cur then cur else cur + [more[0]];
             next <= r && PickedAt(r[|next|..], more[1..], rest)
    ensures cur <= r && PickedAt(r[|cur|..], more, at)
  {
    hide PickedAt;
    var next := if more[0] in cur then cur else cur + [more[0]];
    var later := PickOneEarlier(r[|next|..], more[1..], rest, more[0]);
    assert more == [more[0]] + more[1..];
    if more[0] in cur {
      at := later;
    } else {
      at := [0] + later;
      assert r[|cur|] == next[|cur|];
      assert r[|cur|..] == [more[0]] + r[|cur| + 1..];
    }
  }

  lemma WithoutSnoc(cur: seq<string>, l: string, x: string)
    ensures Without(cur + [l], x) == Without(cur, x) + if l == x then [] else [l]
  {
    if cur == [] {
      assert cur + [l] == [l];
    } else {
      assert (cur + [l])[1..] == cur[1..] + [l];
      WithoutSnoc(cur[1..], l, x);
    }
  }

  lemma {:induction false} LabelsRemovedSnoc(cur: seq<string>, l: string, gone: seq<string>)
    ensures LabelsAfterRemove(cur + [l], gone) == LabelsAfterRemove(cur, gone) + if l in gone then [] else [l]
    decreases |gone|
  {
    if gone != [] {
      WithoutSnoc(cur, l, gone[0]);
      if l == gone[0] {
        assert Without(cur + [l], gone[0]) == Without(cur, gone[0]);
        assert LabelsAfterRemove(cur, gone) + [] == LabelsAfterRemove(cur, gone);
      } else {
        LabelsRemovedSnoc(Without(cur, gone[0]), l, gone[1..]);
      }
    }
  }

  lemma NoLabelsStayNone(gone: seq<string>)
    ensures LabelsAfterRemove([], gone) == [] && PickedAt(LabelsAfterRemove([], gone), [], [])
  {
    if gone != [] {
      NoLabelsStayNone(gone[1..]);
    }
  }

  // The labels that are not removed stay, in their order.
  lemma {:induction false} LabelsStay(cur: seq<string>, gone: seq<string>) returns (at: seq<nat>)
    ensures PickedAt(LabelsAfterRemove(cur, gone), cur, at)
    ensures forall i :: i in at <==> 0 <= i < |cur| && cur[i] !in gone
    decreases |cur|
  {
    hide PickedAt, LabelsAfterRemove;
    if cur == [] {
      at := [];
      NoLabelsStayNone(gone);
    } else {
      var init, l := cur[..|cur| - 1], cur[|cur| - 1];
      assert cur == init + [l];
      var before := LabelsStay(init, gone);
      at := OneMoreStays(init, l, gone, before);
    }
  }

  lemma OneMoreStays(init: seq<string>, l: string, gone: seq<string>, before: seq<nat>) returns (at: seq<nat>)
    requires PickedAt(LabelsAfterRemove(init, gone), init, before)
    requires forall i :: i in before <==> 0 <= i < |init| && init[i] !in gone
    ensures PickedAt(LabelsAfterRemove(init + [l], gone), init + [l], at)
    ensures forall i :: i in at <==> 0 <= i < |init + [l]| && (init + [l])[i] !in gone
  {
    hide PickedAt, LabelsAfterRemove;
    var kept := LabelsAfterRemove(init, gone);
    LabelsRemovedSnoc(init, l, gone);
    PickOneMore(kept, init, before, l);
    if l in gone {
      at := before;
      assert kept + [] == kept;
    } else {
      at := before + [|init|];
    }
  }

  // Only the node `id` differs, and only in its labels and properties.
  ghost predicate NodeRewritten(g: Graph, h: Graph, id: NodeId, labels: seq<string>, props: Props) {
    && h.edges == g.edges && h.nextNode == g.nextNode && h.nextEdge == g.nextEdge && h.nodes.Keys == g.nodes.Keys
    && forall n :: n in g.nodes ==> h.nodes[n] == if n == id then Node(g.nodes[n].id, labels, props) else g.nodes[n]
  }

  // Only the edge `id` differs, and only in its properties.
  ghost predicate EdgeRewritten(g: Graph, h: Graph, id: EdgeId, props: Props) {
    && h.nodes == g.nodes && h.nextNode == g.nextNode && h.nextEdge == g.nextEdge && h.edges.Keys == g.edges.Keys
    && forall e :: e in g.edges ==>
         h.edges[e] == if e == id then Edge(g.edges[e].id, g.edges[e].relType, g.edges[e].src, g.edges[e].dst, props) else g.edges[e]
  }

  // A key set anew has the new value, every other the value it had.
  ghost predicate Overlaid(before: Props, more: Props, after: Props) {
    forall k: string ::
      && (k in after <==> k in before || k in more)
      && (k in after ==> after[k] == if k in more then more[k] else before[k])
  }

  function EraseNode(g: Graph, id: NodeId): Graph {
    g.(nodes := g.nodes - {id},
       edges := map e | e in g.edges && g.edges[e].src != id && g.edges[e].dst != id :: g.edges[e])
  }

  ghost predicate Isolated(g: Graph, id: NodeId) {
    forall e :: e in g.edges ==> g.edges[e].src != id && g.edges[e].dst != id
  }

  // --- The write interface as one operation type ---

  datatype Op =
    | CreateNode(labels: seq<string>, props: Props)
    | CreateEdge(relType: string, src: NodeId, dst: NodeId, props: Props)
    | SetNodeProperty(id: NodeId, key: string, value: PropertyValue)
    | SetNodeAllProperties(id: NodeId, props: Props)
    | MergeNodeProperties(id: NodeId, props: Props)
    | RemoveNodeProperty(id: NodeId, key: string)
    | AddNodeLabels(id: NodeId, labels: seq<string>)
    | RemoveNodeLabels(id: NodeId, labels: seq<string>)
    | SetEdgeProperty(id: EdgeId, key: string, value: PropertyValue)
    | SetEdgeAllProperties(id: EdgeId, props: Props)
    | MergeEdgeProperties(id: EdgeId, props: Props)
    | RemoveEdgeProperty(id: EdgeId, key: string)
    | DeleteNode(id: NodeId, detach: bool)
    | DeleteEdge(id: EdgeId)

  ghost function Apply(g: Graph, op: Op): Graph {
    match op
    case CreateNode(labels, props) => AddNode(g, labels, props)
    case CreateEdge(t, src, dst, props) => AddEdge(g, t, src, dst, props).0
    case SetNodeProperty(id, k, v) => if id in g.nodes then SetNodeProps(g, id, g.nodes[id].props[k := v]) else g
    case SetNodeAllProperties(id, props) => SetNodeProps(g, id, props)
    case MergeNodeProperties(id, props) => if id in g.nodes then SetNodeProps(g, id, g.nodes[id].props + props) else g
    case RemoveNodeProperty(id, k) => if id in g.nodes then SetNodeProps(g, id, g.nodes[id].props - {k}) else g
    case AddNodeLabels(id, ls) =>
      if id in g.nodes then PutNode(g, id, LabelsAfterAdd(g.nodes[id].labels, ls), g.nodes[id].props) else g
    case RemoveNodeLabels(id, ls) =>
      if id in g.nodes then PutNode(g, id, LabelsAfterRemove(g.nodes[id].labels, ls), g.nodes[id].props) else g
    case SetEdgeProperty(id, k, v) => if id in g.edges then SetEdgeProps(g, id, g.edges[id].props[k := v]) else g
    case SetEdgeAllProperties(id, props) => SetEdgeProps(g, id, props)
    case MergeEdgeProperties(id, props) => if id in g.edges then SetEdgeProps(g, id, g.edges[id].props + props) else g
    case RemoveEdgeProperty(id, k) => if id in g.edges then SetEdgeProps(g, id, g.edges[id].props - {k}) else g
    case DeleteNode(id, detach) => if id in g.nodes && (detach || Isolated(g, id)) then EraseNode(g, id) else g
    case DeleteEdge(id) => g.(edges := g.edges - {id})
  }

  ghost function ApplyAll(g: Graph, ops: seq<Op>): Graph
    decreases |ops|
  {
    if ops == [] then g else ApplyAll(Apply(g, ops[0]), ops[1..])
  }

  // One operation after another, in order.
  lemma {:induction false} ApplyInOrder(g: Graph, a: seq<Op>, b: seq<Op>)
    ensures ApplyAll(g, a + b) == ApplyAll(ApplyAll(g, a), b)
    ensures |a| == 1 ==> ApplyAll(g, a) == Apply(g, a[0])
    decreases |a|
  {
    hide Apply;
    if a == [] {
      assert a + b == b;
    } else {
      assert (a + b)[0] == a[0] && (a + b)[1..] == a[1..] + b;
      ApplyInOrder(Apply(g, a[0]), a[1..], b);
      assert |a| == 1 ==> a[1..] == [];
    }
  }

  // `h` came after `g`: identifiers already handed out are not handed out
  // again, so what is live in `h` under such an id was live in `g`, and an
  // edge never changes its type or its ends.
  ghost predicate Evolves(g: Graph, h: Graph) {
    && g.nextNode <= h.nextNode && g.nextEdge <= h.nextEdge
    && (forall n :: n in h.nodes && n < g.nextNode ==> n in g.nodes)
    && (forall e :: e in h.edges && e < g.nextEdge ==> e in g.edges && SameShape(g.edges[e], h.edges[e]))
  }

  predicate SameShape(a: Edge, b: Edge) {
    a.src == b.src && a.dst == b.dst && a.relType == b.relType
  }

  lemma ApplyKeepsGraphOk(g: Graph, op: Op)
    requires GraphOk(g)
    ensures GraphOk(Apply(g, op)) && Evolves(g, Apply(g, op))
  {
    hide GraphOk, Evolves;
    match op
    case CreateNode(_, _) => AddNodeKeeps(g, op);
    case CreateEdge(_, _, _, _) => AddEdgeKeeps(g, op);
    case DeleteNode(_, _) => EraseKeeps(g, op);
    case DeleteEdge(_) => EraseKeeps(g, op);
    case _ => UpdateInPlace(g, Apply(g, op));
  }

  lemma AddNodeKeeps(g: Graph, op: Op)
    requires GraphOk(g) && op.CreateNode?
    ensures GraphOk(Apply(g, op)) && Evolves(g, Apply(g, op))
  {
  }

  lemma AddEdgeKeeps(g: Graph, op: Op)
    requires GraphOk(g) && op.CreateEdge?
    ensures GraphOk(Apply(g, op)) && Evolves(g, Apply(g, op))
  {
  }

  lemma EraseKeeps(g: Graph, op: Op)
    requires GraphOk(g) && (op.DeleteNode? || op.DeleteEdge?)
    ensures GraphOk(Apply(g, op)) && Evolves(g, Apply(g, op))
  {
  }

  lemma UpdateInPlace(g: Graph, h: Graph)
    requires GraphOk(g)
    requires h.nodes.Keys == g.nodes.Keys && h.edges.Keys == g.edges.Keys
    requires h.nextNode == g.nextNode && h.nextEdge == g.nextEdge
    requires forall n :: n in h.nodes ==> h.nodes[n].id == g.nodes[n].id
    requires forall e :: e in h.edges ==> h.edges[e].id == g.edges[e].id && SameShape(g.edges[e], h.edges[e])
    ensures GraphOk(h) && Evolves(g, h)
  {
  }

  lemma EvolvesTransitive(g: Graph, h: Graph, k: Graph)
    requires Evolves(g, h) && Evolves(h, k)
    ensures Evolves(g, k)
  {
  }

  // Over any run: tables stay consistent, no edge dangles, ids are fresh.
  lemma {:induction false} RunsKeepGraphOk(g: Graph, ops: seq<Op>)
    requires GraphOk(g)
    ensures GraphOk(ApplyAll(g, ops)) && Evolves(g, ApplyAll(g, ops))
    decreases |ops|
  {
    hide GraphOk, Apply;
    if ops != [] {
      var h := Apply(g, ops[0]);
      ApplyKeepsGraphOk(g, ops[0]);
      RunsKeepGraphOk(h, ops[1..]);
      EvolvesTransitive(g, h, ApplyAll(h, ops[1..]));
    }
  }
}
