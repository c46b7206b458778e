// The index tables of egrph-core/src/graph/storage.rs as values: what one
// insertion or removal does to a table, and when a table is in step with the
// nodes and edges it indexes.

module IndexTables {
  import opened GraphTypes
  import opened Sequences
  import opened AbstractGraph
  import opened Floats

  // --- Index values ---

  datatype PropKey = KStr(s: string) | KInt(i: I64) | KFloatBits(f: F64) | KBool(b: bool)

  function KeyOf(v: PropertyValue): PropKey {
    match v
    case Str(s) => KStr(s)
    case Int(i) => KInt(i)
    case Float(f) => KFloatBits(f)
    case Bool(b) => KBool(b)
  }

  type LabelIndex = map<string, set<NodeId>>
  type PropIndex = map<string, map<PropKey, set<NodeId>>>
  type EndpointKey = (NodeId, string, NodeId)

  function At<K>(m: map<K, seq<EdgeId>>, k: K): seq<EdgeId> {
    if k in m then m[k] else []
  }

  function LabelPosting(m: LabelIndex, l: string): set<NodeId> {
    if l in m then m[l] else {}
  }

  function PropPosting(m: PropIndex, k: string, v: PropKey): set<NodeId> {
    if k in m && v in m[k] then m[k][v] else {}
  }

  // `map.entry(k).or_default().push(e)`
  function Pushed<K(!new)>(m: map<K, seq<EdgeId>>, k: K, e: EdgeId): (r: map<K, seq<EdgeId>>)
    ensures At(r, k) == At(m, k) + [e]
    ensures forall j :: j != k ==> At(r, j) == At(m, j)
  {
    m[k := At(m, k) + [e]]
  }

  // `if let Some(v) = map.get_mut(k) { v.retain(|x| *x != e) }`
  function Retained<K(!new)>(m: map<K, seq<EdgeId>>, k: K, e: EdgeId): (r: map<K, seq<EdgeId>>)
    ensures At(r, k) == Without(At(m, k), e)
    ensures forall j :: j != k ==> At(r, j) == At(m, j)
  {
    if k in m then m[k := Without(m[k], e)] else m
  }

  function LabelInserted(m: LabelIndex, l: string, id: NodeId): (r: LabelIndex)
    ensures forall j :: LabelPosting(r, j) == LabelPosting(m, j) + if j == l then {id} else {}
  {
    m[l := LabelPosting(m, l) + {id}]
  }

  function LabelErased(m: LabelIndex, l: string, id: NodeId): (r: LabelIndex)
    ensures forall j :: LabelPosting(r, j) == LabelPosting(m, j) - if j == l then {id} else {}
  {
    if l in m then m[l := m[l] - {id}] else m
  }

  function PropInserted(m: PropIndex, k: string, v: PropKey, id: NodeId): (r: PropIndex)
    ensures forall j, w :: PropPosting(r, j, w) == PropPosting(m, j, w) + if j == k && w == v then {id} else {}
  {
    var inner := if k in m then m[k] else map[];
    m[k := inner[v := PropPosting(m, k, v) + {id}]]
  }

  function PropErased(m: PropIndex, k: string, v: PropKey, id: NodeId): (r: PropIndex)
    ensures forall j, w :: PropPosting(r, j, w) == PropPosting(m, j, w) - if j == k && w == v then {id} else {}
  {
    if k in m && v in m[k] then m[k := m[k][v := m[k][v] - {id}]] else m
  }

  ghost predicate IndexedUnder(p: Props, k: string, v: PropKey) {
    k in p && KeyOf(p[k]) == v
  }

  ghost predicate PropsAdded(m: PropIndex, r: PropIndex, id: NodeId, props: Props) {
    forall k, v, i :: i in PropPosting(r, k, v) <==>
      i in PropPosting(m, k, v) || (i == id && IndexedUnder(props, k, v))
  }

  ghost predicate PropsTakenOut(m: PropIndex, r: PropIndex, id: NodeId, props: Props) {
    forall k, v, i :: i in PropPosting(r, k, v) <==>
      i in PropPosting(m, k, v) && !(i == id && IndexedUnder(props, k, v))
  }

  ghost predicate LabelsAdded(m: LabelIndex, r: LabelIndex, id: NodeId, labels: seq<string>) {
    forall l, i :: i in LabelPosting(r, l) <==> i in LabelPosting(m, l) || (i == id && l in labels)
  }

  ghost predicate LabelsTakenOut(m: LabelIndex, r: LabelIndex, id: NodeId, labels: seq<string>) {
    forall l, i :: i in LabelPosting(r, l) <==> i in LabelPosting(m, l) && !(i == id && l in labels)
  }

  // Indexing every property of a node.
  method IndexProps(m: PropIndex, id: NodeId, props: Props) returns (r: PropIndex)
    ensures PropsAdded(m, r, id, props)
  {
    r := m;
    var rest := props.Keys;
    while rest != {}
      invariant rest <= props.Keys
      invariant forall k, v, i :: i in PropPosting(r, k, v) <==>
                  i in PropPosting(m, k, v) || (i == id && k !in rest && IndexedUnder(props, k, v))
      decreases |rest|
    {
      var k :| k in rest;
      r := PropInserted(r, k, KeyOf(props[k]), id);
      rest := rest - {k};
    }
  }

  method UnindexProps(m: PropIndex, id: NodeId, props: Props) returns (r: PropIndex)
    ensures PropsTakenOut(m, r, id, props)
  {
    r := m;
    var rest := props.Keys;
    while rest != {}
      invariant rest <= props.Keys
      invariant forall k, v, i :: i in PropPosting(r, k, v) <==>
                  i in PropPosting(m, k, v) && !(i == id && k !in rest && IndexedUnder(props, k, v))
      decreases |rest|
    {
      var k :| k in rest;
      r := PropErased(r, k, KeyOf(props[k]), id);
      rest := rest - {k};
    }
  }

  method IndexLabels(m: LabelIndex, id: NodeId, labels: seq<string>) returns (r: LabelIndex)
    ensures LabelsAdded(m, r, id, labels)
  {
    r := m;
    for j := 0 to |labels|
      invariant LabelsAdded(m, r, id, labels[..j])
    {
      r := LabelInserted(r, labels[j], id);
      assert labels[..j + 1] == labels[..j] + [labels[j]];
    }
    assert labels[..|labels|] == labels;
  }

  method UnindexLabels(m: LabelIndex, id: NodeId, labels: seq<string>) returns (r: LabelIndex)
    ensures LabelsTakenOut(m, r, id, labels)
  {
    r := m;
    for j := 0 to |labels|
      invariant LabelsTakenOut(m, r, id, labels[..j])
    {
      r := LabelErased(r, labels[j], id);
      assert labels[..j + 1] == labels[..j] + [labels[j]];
    }
    assert labels[..|labels|] == labels;
  }

  // The index entries of one node, and those of every other node.
  ghost predicate PropsIndexed(m: PropIndex, id: NodeId, props: Props) {
    forall k, v :: id in PropPosting(m, k, v) <==> IndexedUnder(props, k, v)
  }

  ghost predicate OtherPropsKept(m: PropIndex, r: PropIndex, id: NodeId) {
    forall k, v, i :: i != id ==> (i in PropPosting(r, k, v) <==> i in PropPosting(m, k, v))
  }

  ghost predicate LabelsIndexed(m: LabelIndex, id: NodeId, labels: seq<string>) {
    forall l :: id in LabelPosting(m, l) <==> l in labels
  }

  ghost predicate OtherLabelsKept(m: LabelIndex, r: LabelIndex, id: NodeId) {
    forall l, i :: i != id ==> (i in LabelPosting(r, l) <==> i in LabelPosting(m, l))
  }

  function Reindexed(m: PropIndex, id: NodeId, props: Props, k: string, v: PropertyValue): PropIndex {
    PropInserted(if k in props then PropErased(m, k, KeyOf(props[k]), id) else m, k, KeyOf(v), id)
  }

  lemma ReindexPair(m: PropIndex, id: NodeId, props: Props, k: string, v: PropertyValue)
    requires PropsIndexed(m, id, props)
    ensures PropsIndexed(Reindexed(m, id, props, k, v), id, props[k := v])
    ensures OtherPropsKept(m, Reindexed(m, id, props, k, v), id)
  {
  }

  lemma KeptTransitive(m: PropIndex, m1: PropIndex, m2: PropIndex, id: NodeId)
    requires OtherPropsKept(m, m1, id) && OtherPropsKept(m1, m2, id)
    ensures OtherPropsKept(m, m2, id)
  {
  }

  lemma KeptReflexive(m: PropIndex, id: NodeId)
    ensures OtherPropsKept(m, m, id)
  {
  }

  lemma MergeStep(p: Props, q: Props, rest: set<string>, k: string)
    requires k in rest && rest <= q.Keys
    ensures (p + (q - rest))[k := q[k]] == p + (q - (rest - {k}))
  {
  }

  // The loop of `merge_node_properties`: reindex one pair at a time.
  method MergeProps(m: PropIndex, id: NodeId, cur: Props, more: Props) returns (r: PropIndex, props: Props)
    requires PropsIndexed(m, id, cur)
    ensures props == cur + more
    ensures PropsIndexed(r, id, props) && OtherPropsKept(m, r, id)
  {
    hide PropsIndexed, OtherPropsKept, PropInserted, PropErased;
    r, props := m, cur;
    KeptReflexive(m, id);
    var rest := more.Keys;
    while rest != {}
      invariant rest <= more.Keys
      invariant props == cur + (more - rest)
      invariant PropsIndexed(r, id, props) && OtherPropsKept(m, r, id)
      decreases |rest|
    {
      var k :| k in rest;
      ReindexPair(r, id, props, k, more[k]);
      MergeStep(cur, more, rest, k);
      KeptTransitive(m, r, Reindexed(r, id, props, k, more[k]), id);
      if k in props {
        r := PropErased(r, k, KeyOf(props[k]), id);
      }
      r := PropInserted(r, k, KeyOf(more[k]), id);
      props := props[k := more[k]];
      rest := rest - {k};
    }
    assert more - {} == more;
  }

  // The loops of `add_node_labels` and `remove_node_labels`.
  method AddLabels(m: LabelIndex, id: NodeId, cur: seq<string>, more: seq<string>)
    returns (r: LabelIndex, labels: seq<string>)
    requires LabelsIndexed(m, id, cur)
    ensures labels == LabelsAfterAdd(cur, more)
    ensures LabelsIndexed(r, id, labels) && OtherLabelsKept(m, r, id)
  {
    r, labels := m, cur;
    for j := 0 to |more|
      invariant LabelsAfterAdd(labels, more[j..]) == LabelsAfterAdd(cur, more)
      invariant LabelsIndexed(r, id, labels) && OtherLabelsKept(m, r, id)
    {
      if more[j] !in labels {
        labels := labels + [more[j]];
        r := LabelInserted(r, more[j], id);
      }
      assert more[j..][0] == more[j] && more[j..][1..] == more[j + 1..];
    }
  }

  method RemoveLabels(m: LabelIndex, id: NodeId, cur: seq<string>, gone: seq<string>)
    returns (r: LabelIndex, labels: seq<string>)
    requires LabelsIndexed(m, id, cur)
    ensures labels == LabelsAfterRemove(cur, gone)
    ensures LabelsIndexed(r, id, labels) && OtherLabelsKept(m, r, id)
  {
    r, labels := m, cur;
    for j := 0 to |gone|
      invariant LabelsAfterRemove(labels, gone[j..]) == LabelsAfterRemove(cur, gone)
      invariant LabelsIndexed(r, id, labels) && OtherLabelsKept(m, r, id)
    {
      labels := Without(labels, gone[j]);
      r := LabelErased(r, gone[j], id);
      assert gone[j..][0] == gone[j] && gone[j..][1..] == gone[j + 1..];
    }
  }

  // --- The storage invariant ---

  ghost predicate OutgoingOk(m: map<NodeId, seq<EdgeId>>, edges: map<EdgeId, Edge>) {
    forall n :: Lists(At(m, n), OutSet(edges, n))
  }

  ghost predicate IncomingOk(m: map<NodeId, seq<EdgeId>>, edges: map<EdgeId, Edge>) {
    forall n :: Lists(At(m, n), InSet(edges, n))
  }

  ghost predicate OutgoingOkExcept(m: map<NodeId, seq<EdgeId>>, edges: map<EdgeId, Edge>, id: NodeId) {
    forall n :: n != id ==> Lists(At(m, n), OutSet(edges, n))
  }

  ghost predicate IncomingOkExcept(m: map<NodeId, seq<EdgeId>>, edges: map<EdgeId, Edge>, id: NodeId) {
    forall n :: n != id ==> Lists(At(m, n), InSet(edges, n))
  }

  ghost predicate EndpointsOk(m: map<EndpointKey, seq<EdgeId>>, edges: map<EdgeId, Edge>) {
    forall k :: Lists(At(m, k), BetweenSet(edges, k))
  }

  ghost predicate LabelsOk(m: LabelIndex, nodes: map<NodeId, Node>) {
    forall l, i :: i in LabelPosting(m, l) <==> i in nodes && l in nodes[i].labels
  }

  ghost predicate PropsOk(m: PropIndex, nodes: map<NodeId, Node>) {
    forall k, v, i :: i in PropPosting(m, k, v) <==> i in nodes && IndexedUnder(nodes[i].props, k, v)
  }

  lemma RetainLists<K(!new)>(m: map<K, seq<EdgeId>>, k: K, e: EdgeId, c: set<EdgeId>)
    requires Lists(At(m, k), c)
    ensures Lists(At(Retained(m, k, e), k), c - {e})
  {
    WithoutLists(At(m, k), c, e);
  }

  // --- Index maintenance, one table at a time ---

  lemma RemoveKeepsProps(m: PropIndex, nodes: map<NodeId, Node>, id: NodeId, k: string)
    requires PropsOk(m, nodes) && id in nodes && k in nodes[id].props
    ensures PropsOk(PropErased(m, k, KeyOf(nodes[id].props[k]), id),
                    nodes[id := nodes[id].(props := nodes[id].props - {k})])
  {
  }

  lemma ReplaceKeepsProps(m: PropIndex, m1: PropIndex, m2: PropIndex,
                          nodes: map<NodeId, Node>, id: NodeId, props: Props)
    requires PropsOk(m, nodes) && id in nodes
    requires PropsTakenOut(m, m1, id, nodes[id].props) && PropsAdded(m1, m2, id, props)
    ensures PropsOk(m2, nodes[id := nodes[id].(props := props)])
  {
    var nodes2 := nodes[id := nodes[id].(props := props)];
    forall k, v, i ensures i in PropPosting(m2, k, v) <==> i in nodes2 && IndexedUnder(nodes2[i].props, k, v) {
      assert i in PropPosting(m, k, v) <==> i in nodes && IndexedUnder(nodes[i].props, k, v);
      assert i in PropPosting(m1, k, v) <==> i in PropPosting(m, k, v) && !(i == id && IndexedUnder(nodes[id].props, k, v));
    }
  }

  lemma NewNodeIndexed(l: LabelIndex, l2: LabelIndex, p: PropIndex, p2: PropIndex,
                       nodes: map<NodeId, Node>, n: Node)
    requires LabelsOk(l, nodes) && PropsOk(p, nodes) && n.id !in nodes
    requires LabelsAdded(l, l2, n.id, n.labels) && PropsAdded(p, p2, n.id, n.props)
    ensures LabelsOk(l2, nodes[n.id := n]) && PropsOk(p2, nodes[n.id := n])
  {
    var nodes2 := nodes[n.id := n];
    forall k, v, i ensures i in PropPosting(p2, k, v) <==> i in nodes2 && IndexedUnder(nodes2[i].props, k, v) {
      assert i in PropPosting(p, k, v) <==> i in nodes && IndexedUnder(nodes[i].props, k, v);
    }
  }

  lemma NodeIsIndexed(l: LabelIndex, p: PropIndex, nodes: map<NodeId, Node>, id: NodeId)
    requires LabelsOk(l, nodes) && PropsOk(p, nodes) && id in nodes
    ensures LabelsIndexed(l, id, nodes[id].labels) && PropsIndexed(p, id, nodes[id].props)
  {
  }

  lemma UpdateKeepsProps(m: PropIndex, r: PropIndex, nodes: map<NodeId, Node>, n: Node)
    requires PropsOk(m, nodes) && PropsIndexed(r, n.id, n.props) && OtherPropsKept(m, r, n.id)
    ensures PropsOk(r, nodes[n.id := n])
  {
  }

  lemma UpdateKeepsLabels(m: LabelIndex, r: LabelIndex, nodes: map<NodeId, Node>, n: Node)
    requires LabelsOk(m, nodes) && LabelsIndexed(r, n.id, n.labels) && OtherLabelsKept(m, r, n.id)
    ensures LabelsOk(r, nodes[n.id := n])
  {
  }

  lemma FreshIds(g: Graph)
    requires GraphOk(g)
    ensures g.nextNode !in g.nodes && g.nextEdge !in g.edges
    ensures forall e :: e in g.edges ==> e < g.nextEdge
  {
  }

  lemma IdsMatch(g: Graph)
    requires GraphOk(g)
    ensures forall e :: e in g.edges ==> g.edges[e].id == e
    ensures forall n :: n in g.nodes ==> g.nodes[n].id == n
  {
  }

  lemma SameShapesKeepEdgeTables(o: map<NodeId, seq<EdgeId>>, i: map<NodeId, seq<EdgeId>>,
                                 b: map<EndpointKey, seq<EdgeId>>,
                                 edges: map<EdgeId, Edge>, edges2: map<EdgeId, Edge>)
    requires OutgoingOk(o, edges) && IncomingOk(i, edges) && EndpointsOk(b, edges)
    requires edges.Keys == edges2.Keys && forall e :: e in edges ==> SameShape(edges[e], edges2[e])
    ensures OutgoingOk(o, edges2) && IncomingOk(i, edges2) && EndpointsOk(b, edges2)
  {
    assert forall n :: OutSet(edges, n) == OutSet(edges2, n);
    assert forall n :: InSet(edges, n) == InSet(edges2, n);
    assert forall k :: BetweenSet(edges, k) == BetweenSet(edges2, k);
  }

  // The two lists of a node hold exactly the edges that touch it.
  lemma ListsSeeEdges(o: map<NodeId, seq<EdgeId>>, i: map<NodeId, seq<EdgeId>>, edges: map<EdgeId, Edge>, id: NodeId)
    requires OutgoingOk(o, edges) && IncomingOk(i, edges)
    ensures forall e :: e in At(o, id) <==> e in edges && edges[e].src == id
    ensures forall e :: e in At(i, id) <==> e in edges && edges[e].dst == id
  {
    assert Lists(At(o, id), OutSet(edges, id)) && Lists(At(i, id), InSet(edges, id));
  }

  // The edges left when `touching - rest` has been taken out.
  ghost function Remaining(edges: map<EdgeId, Edge>, touching: set<EdgeId>, rest: set<EdgeId>): map<EdgeId, Edge> {
    edges - (touching - rest)
  }

  lemma RemainingEnds(edges: map<EdgeId, Edge>, touching: set<EdgeId>)
    ensures Remaining(edges, touching, touching) == edges
    ensures Remaining(edges, touching, {}) == edges - touching
  {
    assert touching - {} == touching;
  }

  lemma RemainingStep(edges: map<EdgeId, Edge>, touching: set<EdgeId>, rest: set<EdgeId>, e: EdgeId)
    requires rest <= touching && e in rest && forall x :: x in touching ==> x in edges
    ensures Remaining(edges, touching, rest - {e}) == Remaining(edges, touching, rest) - {e}
    ensures e in Remaining(edges, touching, rest) && Remaining(edges, touching, rest)[e] == edges[e]
  {
  }

  lemma EraseIsSubtraction(g: Graph, id: NodeId, touching: set<EdgeId>)
    requires GraphOk(g)
    requires forall e :: e in touching <==> e in g.edges && (g.edges[e].src == id || g.edges[e].dst == id)
    ensures EraseNode(g, id).edges == g.edges - touching
    ensures forall e :: e in touching ==> g.edges[e].id == e
  {
  }

  lemma OkImpliesExcept(o: map<NodeId, seq<EdgeId>>, i: map<NodeId, seq<EdgeId>>, edges: map<EdgeId, Edge>, id: NodeId)
    requires OutgoingOk(o, edges) && IncomingOk(i, edges)
    ensures OutgoingOkExcept(o, edges, id) && IncomingOkExcept(i, edges, id)
  {
  }

  lemma SameLabelsKeepLabels(m: LabelIndex, nodes: map<NodeId, Node>, nodes2: map<NodeId, Node>)
    requires LabelsOk(m, nodes)
    requires nodes.Keys == nodes2.Keys && forall i :: i in nodes ==> nodes[i].labels == nodes2[i].labels
    ensures LabelsOk(m, nodes2)
  {
  }

  lemma SamePropsKeepProps(m: PropIndex, nodes: map<NodeId, Node>, nodes2: map<NodeId, Node>)
    requires PropsOk(m, nodes)
    requires nodes.Keys == nodes2.Keys && forall i :: i in nodes ==> nodes[i].props == nodes2[i].props
    ensures PropsOk(m, nodes2)
  {
  }

  lemma PushKeepsOutgoing(m: map<NodeId, seq<EdgeId>>, edges: map<EdgeId, Edge>, e: Edge)
    requires OutgoingOk(m, edges) && forall x :: x in edges ==> x < e.id
    ensures OutgoingOk(Pushed(m, e.src, e.id), edges[e.id := e])
  {
    hide Lists;
    var after := edges[e.id := e];
    forall n ensures Lists(At(Pushed(m, e.src, e.id), n), OutSet(after, n)) {
      assert Lists(At(m, n), OutSet(edges, n));
      if n == e.src {
        AppendLarger(At(m, n), OutSet(edges, n), e.id);
        assert OutSet(after, n) == OutSet(edges, n) + {e.id};
      } else {
        assert OutSet(after, n) == OutSet(edges, n);
      }
    }
  }

  lemma PushKeepsIncoming(m: map<NodeId, seq<EdgeId>>, edges: map<EdgeId, Edge>, e: Edge)
    requires IncomingOk(m, edges) && forall x :: x in edges ==> x < e.id
    ensures IncomingOk(Pushed(m, e.dst, e.id), edges[e.id := e])
  {
    hide Lists;
    var after := edges[e.id := e];
    forall n ensures Lists(At(Pushed(m, e.dst, e.id), n), InSet(after, n)) {
      assert Lists(At(m, n), InSet(edges, n));
      if n == e.dst {
        AppendLarger(At(m, n), InSet(edges, n), e.id);
        assert InSet(after, n) == InSet(edges, n) + {e.id};
      } else {
        assert InSet(after, n) == InSet(edges, n);
      }
    }
  }

  lemma PushKeepsEndpoints(m: map<EndpointKey, seq<EdgeId>>, edges: map<EdgeId, Edge>, e: Edge)
    requires EndpointsOk(m, edges) && forall x :: x in edges ==> x < e.id
    ensures EndpointsOk(Pushed(m, (e.src, e.relType, e.dst), e.id), edges[e.id := e])
  {
    hide Lists;
    var after := edges[e.id := e];
    var key := (e.src, e.relType, e.dst);
    forall k ensures Lists(At(Pushed(m, key, e.id), k), BetweenSet(after, k)) {
      assert Lists(At(m, k), BetweenSet(edges, k));
      if k == key {
        AppendLarger(At(m, k), BetweenSet(edges, k), e.id);
        assert BetweenSet(after, k) == BetweenSet(edges, k) + {e.id};
      } else {
        assert BetweenSet(after, k) == BetweenSet(edges, k);
      }
    }
  }

  lemma EraseFromOutgoing(m: map<NodeId, seq<EdgeId>>, edges: map<EdgeId, Edge>, e: Edge)
    requires Lists(At(m, e.src), OutSet(edges, e.src))
    ensures Lists(At(Retained(m, e.src, e.id), e.src), OutSet(edges - {e.id}, e.src))
  {
    hide Lists;
    RetainLists(m, e.src, e.id, OutSet(edges, e.src));
    assert OutSet(edges - {e.id}, e.src) == OutSet(edges, e.src) - {e.id};
  }

  lemma EraseFromIncoming(m: map<NodeId, seq<EdgeId>>, edges: map<EdgeId, Edge>, e: Edge)
    requires Lists(At(m, e.dst), InSet(edges, e.dst))
    ensures Lists(At(Retained(m, e.dst, e.id), e.dst), InSet(edges - {e.id}, e.dst))
  {
    hide Lists;
    RetainLists(m, e.dst, e.id, InSet(edges, e.dst));
    assert InSet(edges - {e.id}, e.dst) == InSet(edges, e.dst) - {e.id};
  }

  // Erasing one edge, where the lists of `id` are not maintained.
  lemma EraseKeepsOutgoing(m: map<NodeId, seq<EdgeId>>, edges: map<EdgeId, Edge>, e: Edge, id: NodeId)
    requires OutgoingOkExcept(m, edges, id) && e.id in edges && edges[e.id] == e
    ensures OutgoingOkExcept(if e.src != id then Retained(m, e.src, e.id) else m, edges - {e.id}, id)
  {
    hide Lists;
    if e.src != id {
      EraseFromOutgoing(m, edges, e);
    }
    assert forall n :: n != e.src ==> OutSet(edges - {e.id}, n) == OutSet(edges, n);
  }

  lemma EraseKeepsIncoming(m: map<NodeId, seq<EdgeId>>, edges: map<EdgeId, Edge>, e: Edge, id: NodeId)
    requires IncomingOkExcept(m, edges, id) && e.id in edges && edges[e.id] == e
    ensures IncomingOkExcept(if e.dst != id then Retained(m, e.dst, e.id) else m, edges - {e.id}, id)
  {
    hide Lists;
    if e.dst != id {
      EraseFromIncoming(m, edges, e);
    }
    assert forall n :: n != e.dst ==> InSet(edges - {e.id}, n) == InSet(edges, n);
  }

  lemma EraseKeepsBothLists(o: map<NodeId, seq<EdgeId>>, i: map<NodeId, seq<EdgeId>>,
                            edges: map<EdgeId, Edge>, e: Edge)
    requires OutgoingOk(o, edges) && IncomingOk(i, edges) && e.id in edges && edges[e.id] == e
    ensures OutgoingOk(Retained(o, e.src, e.id), edges - {e.id})
    ensures IncomingOk(Retained(i, e.dst, e.id), edges - {e.id})
  {
    hide Lists;
    EraseFromOutgoing(o, edges, e);
    EraseFromIncoming(i, edges, e);
    assert forall n :: n != e.src ==> OutSet(edges - {e.id}, n) == OutSet(edges, n);
    assert forall n :: n != e.dst ==> InSet(edges - {e.id}, n) == InSet(edges, n);
  }

  lemma DropListKeepsBoth(o: map<NodeId, seq<EdgeId>>, i: map<NodeId, seq<EdgeId>>,
                          edges: map<EdgeId, Edge>, id: NodeId)
    requires OutgoingOkExcept(o, edges, id) && IncomingOkExcept(i, edges, id)
    requires forall e :: e in edges ==> edges[e].src != id && edges[e].dst != id
    ensures OutgoingOk(o - {id}, edges) && IncomingOk(i - {id}, edges)
  {
    assert OutSet(edges, id) == {} && InSet(edges, id) == {};
    assert forall n :: n != id ==> At(o - {id}, n) == At(o, n) && At(i - {id}, n) == At(i, n);
  }

  lemma EraseKeepsEndpoints(m: map<EndpointKey, seq<EdgeId>>, r: map<EndpointKey, seq<EdgeId>>,
                            edges: map<EdgeId, Edge>, e: Edge)
    requires EndpointsOk(m, edges) && e.id in edges && edges[e.id] == e
    requires forall k :: At(r, k) == if k == (e.src, e.relType, e.dst) then Without(At(m, k), e.id) else At(m, k)
    ensures EndpointsOk(r, edges - {e.id})
  {
    hide Lists;
    var key := (e.src, e.relType, e.dst);
    forall k ensures Lists(At(r, k), BetweenSet(edges - {e.id}, k)) {
      assert Lists(At(m, k), BetweenSet(edges, k));
      if k == key {
        WithoutLists(At(m, k), BetweenSet(edges, k), e.id);
        assert BetweenSet(edges - {e.id}, k) == BetweenSet(edges, k) - {e.id};
      } else {
        assert BetweenSet(edges - {e.id}, k) == BetweenSet(edges, k);
      }
    }
  }
}
