// The in-memory storage of egrph-core/src/graph/storage.rs: node and edge
// tables with two adjacency tables and three indexes kept in step with them.

module MemoryStorages {
  import opened GraphTypes
  import opened Sequences
  import opened AbstractGraph
  import opened IndexTables
  import opened NodeLookup

  class MemoryStorage {
    var nodes: map<NodeId, Node>
    var edges: map<EdgeId, Edge>
    var outgoing: map<NodeId, seq<EdgeId>>
    var incoming: map<NodeId, seq<EdgeId>>
    var labelIndex: LabelIndex
    var propertyIndex: PropIndex
    var edgeAdjacency: map<EndpointKey, seq<EdgeId>>
    var nextNodeId: NodeId
    var nextEdgeId: EdgeId

    function View(): Graph
      reads this
    {
      Graph(nodes, edges, nextNodeId, nextEdgeId)
    }

    // The label and property indexes hold exactly the live nodes with that
    // label or value; the three edge lists are ascending (hence duplicate-free)
    // and hold exactly the live edges with those endpoints; nothing dangles.
    ghost predicate Valid()
      reads this
    {
      && GraphOk(View())
      && OutgoingOk(outgoing, edges)
      && IncomingOk(incoming, edges)
      && EndpointsOk(edgeAdjacency, edges)
      && LabelsOk(labelIndex, nodes)
      && PropsOk(propertyIndex, nodes)
    }

    constructor ()
      ensures Valid() && View() == EmptyGraph
    {
      nodes, edges, outgoing, incoming := map[], map[], map[], map[];
      labelIndex, propertyIndex, edgeAdjacency := map[], map[], map[];
      nextNodeId, nextEdgeId := 0, 0;
    }

    // --- Reads ---

    function GetNode(id: NodeId): Option<Node>
      reads this
    {
      if id in nodes then Some(nodes[id]) else None
    }

    function GetEdge(id: EdgeId): Option<Edge>
      reads this
    {
      if id in edges then Some(edges[id]) else None
    }

    function OutgoingEdgeIds(id: NodeId): (r: seq<EdgeId>)
      reads this
      ensures Valid() ==> r == OutIds(View(), id)
    {
      assert Valid() ==> At(outgoing, id) == OutIds(View(), id) by {
        if Valid() { ListingIsUnique(At(outgoing, id), OutIds(View(), id), OutSet(edges, id)); }
      }
      At(outgoing, id)
    }

    function IncomingEdgeIds(id: NodeId): (r: seq<EdgeId>)
      reads this
      ensures Valid() ==> r == InIds(View(), id)
    {
      assert Valid() ==> At(incoming, id) == InIds(View(), id) by {
        if Valid() { ListingIsUnique(At(incoming, id), InIds(View(), id), InSet(edges, id)); }
      }
      At(incoming, id)
    }

    // `ids.iter().filter_map(|id| self.edges.get(id).cloned()).collect()`
    function Resolve(ids: seq<EdgeId>): (r: seq<Edge>)
      reads this
      ensures (forall e :: e in ids ==> e in edges) ==> r == EdgesOf(View(), ids)
    {
      if ids == [] then []
      else if ids[0] in edges then [edges[ids[0]]] + Resolve(ids[1..])
      else Resolve(ids[1..])
    }

    function OutgoingEdges(id: NodeId): (r: seq<Edge>)
      reads this
      ensures Valid() ==> r == EdgesOf(View(), OutIds(View(), id))
    {
      Resolve(OutgoingEdgeIds(id))
    }

    function IncomingEdges(id: NodeId): (r: seq<Edge>)
      reads this
      ensures Valid() ==> r == EdgesOf(View(), InIds(View(), id))
    {
      Resolve(IncomingEdgeIds(id))
    }

    // The endpoint index returns the very list the default scan returns: the
    // outgoing edges filtered by type and far end, in the same order.
    function EdgesBetween(src: NodeId, relType: string, dst: NodeId): (r: seq<Edge>)
      reads this
      ensures Valid() ==> r == ScanBetween(EdgesOf(View(), OutIds(View(), src)), relType, dst)
    {
      var k := (src, relType, dst);
      assert Valid() ==> Resolve(At(edgeAdjacency, k)) == ScanBetween(EdgesOf(View(), OutIds(View(), src)), relType, dst)
      by {
        if Valid() {
          assert Lists(At(edgeAdjacency, k), BetweenSet(edges, k));
          BetweenIsScan(View(), src, relType, dst, At(edgeAdjacency, k));
        }
      }
      Resolve(At(edgeAdjacency, k))
    }

    // The nodes behind a posting list, in the order the hash set yields them.
    method NodesOf(ids: set<NodeId>) returns (r: seq<Node>)
      requires Valid()
      ensures Enumerates(r, set i | i in ids && i in nodes :: nodes[i])
    {
      r := [];
      IdsMatch(View());
      var rest := ids;
      while rest != {}
        invariant rest <= ids
        invariant Enumerates(r, set i | i in ids - rest && i in nodes :: nodes[i])
        decreases |rest|
      {
        var id: NodeId :| id in rest;
        ghost var c := set i | i in ids - rest && i in nodes :: nodes[i];
        rest := rest - {id};
        ghost var c2 := set i | i in ids - rest && i in nodes :: nodes[i];
        if id in nodes {
          assert nodes[id] !in c;
          assert c2 == c + {nodes[id]};
          r := r + [nodes[id]];
        } else {
          assert c2 == c;
        }
      }
      assert ids - {} == ids;
    }

    method MatchNodes(lab: Option<string>) returns (r: seq<Node>)
      requires Valid()
      ensures Enumerates(r, LabelScan(View(), lab))
    {
      if lab.None? {
        r := NodesOf(nodes.Keys);
        assert (set i | i in nodes.Keys && i in nodes :: nodes[i]) == LabelScan(View(), lab);
      } else {
        var ids := LabelPosting(labelIndex, lab.value);
        r := NodesOf(ids);
        assert (set i | i in ids && i in nodes :: nodes[i]) == LabelScan(View(), lab);
      }
    }

    // Intersection of the posting lists, filtered by label only.
    method MatchNodesWithProps(lab: Option<string>, props: Props) returns (r: seq<Node>)
      requires Valid()
      ensures Enumerates(r, IndexScan(View(), lab, props))
      ensures AllExact(props) ==> Enumerates(r, PlainScan(View(), lab, props))
    {
      if AllExact(props) {
        IndexScanAgrees(View(), lab, props);
      }
      if props == map[] {
        r := MatchNodes(lab);
        assert LabelScan(View(), lab) == IndexScan(View(), lab, props);
        return;
      }
      var candidates := IntersectPostings(props);
      var ids := set i | i in candidates && i in nodes && LabelMatches(nodes[i], lab);
      r := NodesOf(ids);
      assert (set i | i in ids && i in nodes :: nodes[i]) == IndexScan(View(), lab, props);
    }

    method IntersectPostings(props: Props) returns (ids: set<NodeId>)
      requires Valid() && props != map[]
      ensures forall i :: i in ids <==> i in nodes && HasPropsByKey(nodes[i].props, props)
    {
      var candidates: Option<set<NodeId>> := None;
      var rest := props.Keys;
      while rest != {}
        invariant rest <= props.Keys && (candidates.None? <==> rest == props.Keys)
        invariant candidates.Some? ==> forall i :: i in candidates.value <==>
                    i in nodes && HasPropsByKey(nodes[i].props, props - rest)
        decreases |rest|
      {
        var k :| k in rest;
        var posting := PropPosting(propertyIndex, k, KeyOf(props[k]));
        PostingNarrows(propertyIndex, nodes, props, rest, k);
        candidates := Some(if candidates.None? then posting else candidates.value * posting);
        rest := rest - {k};
      }
      assert props - {} == props;
      ids := candidates.value;
    }

    // Seeds from the smallest posting list, then filters exactly.
    method FindNodes(labels: seq<string>, props: Props) returns (r: seq<NodeId>)
      requires Valid()
      ensures Finds(View(), labels, props, r)
    {
      hide Finds, FindSet, SeedSet, SeedSoFar;
      ghost var g := View();
      PostingsAreSeeds(this, labels, props);
      var best: Option<set<NodeId>> := None;
      ghost var seed := EveryNode;
      NothingSeeded(g, labels, props);
      if labels != [] {
        if labels[0] !in labelIndex {
          EmptyListFindsNothing(g, labels, props, ByLabel);
          return [];
        }
        best := Some(labelIndex[labels[0]]);
        seed := ByLabel;
      }
      var rest := props.Keys;
      while rest != {}
        invariant rest <= props.Keys
        invariant SeedSoFar(g, labels, props, rest, seed, best)
        decreases |rest|
      {
        var k :| k in rest;
        var key := KeyOf(props[k]);
        if k !in propertyIndex || key !in propertyIndex[k] {
          EmptyListFindsNothing(g, labels, props, ByKey(k));
          return [];
        }
        var ids := propertyIndex[k][key];
        SeedStep(g, labels, props, rest, seed, best, k);
        if best.None? || |ids| < |best.value| {
          best := Some(ids);
          seed := ByKey(k);
        }
        rest := rest - {k};
      }
      r := FilterIds(if best.Some? then best.value else nodes.Keys, labels, props);
      SeedEnds(g, labels, props, seed, best, r);
    }

    method FilterIds(seed: set<NodeId>, labels: seq<string>, props: Props) returns (r: seq<NodeId>)
      ensures Enumerates(r, seed * FindSet(View(), labels, props))
    {
      hide FindSet;
      ghost var wanted := FindSet(View(), labels, props);
      r := [];
      var rest := seed;
      while rest != {}
        invariant rest <= seed && NoDup(r)
        invariant forall i :: i in r <==> i in seed && i !in rest && i in wanted
        decreases |rest|
      {
        var id: NodeId :| id in rest;
        rest := rest - {id};
        var keep := PassesFilter(id, labels, props);
        if keep {
          r := r + [id];
        }
      }
    }

    predicate PassesFilter(id: NodeId, labels: seq<string>, props: Props): (b: bool)
      reads this
      ensures b <==> id in FindSet(View(), labels, props)
    {
      && id in nodes
      && (forall l :: l in labels ==> l in nodes[id].labels)
      && (forall k :: k in props ==> k in nodes[id].props && PropEq(nodes[id].props[k], props[k]))
    }

    // --- Mutators ---

    method CreateNode(labels: seq<string>, props: Props) returns (id: NodeId)
      requires Valid()
      modifies this
      ensures Valid()
      ensures View() == Apply(old(View()), Op.CreateNode(labels, props))
      ensures id == old(nextNodeId) && id !in old(nodes)
      ensures nodes == old(nodes)[id := Node(id, labels, props)] && edges == old(edges)
      ensures nextNodeId == id + 1 && nextEdgeId == old(nextEdgeId)
    {
      hide OutgoingOk, IncomingOk, EndpointsOk, LabelsOk, PropsOk, GraphOk;
      hide PropsAdded, PropsTakenOut, LabelsAdded, LabelsTakenOut;
      ApplyKeepsGraphOk(View(), Op.CreateNode(labels, props));
      FreshIds(View());
      id := nextNodeId;
      propertyIndex := IndexProps(propertyIndex, id, props);
      var node := Node(id, labels, props);
      nodes := nodes[id := node];
      labelIndex := IndexLabels(labelIndex, id, labels);
      nextNodeId := nextNodeId + 1;
      NewNodeIndexed(old(labelIndex), labelIndex, old(propertyIndex), propertyIndex, old(nodes), node);
    }

    method CreateEdge(relType: string, src: NodeId, dst: NodeId, props: Props) returns (r: Outcome<EdgeId>)
      requires Valid()
      modifies this
      ensures Valid()
      ensures View() == Apply(old(View()), Op.CreateEdge(relType, src, dst, props))
      ensures r == AddEdge(old(View()), relType, src, dst, props).1
      ensures r.Ok? ==> r.value == old(nextEdgeId) && r.value !in old(edges)
      ensures r.Ok? <==> src in old(nodes) && dst in old(nodes)
      ensures edges == if r.Ok? then old(edges)[r.value := Edge(r.value, relType, src, dst, props)] else old(edges)
      ensures nodes == old(nodes) && nextNodeId == old(nextNodeId)
      ensures nextEdgeId == old(nextEdgeId) + if r.Ok? then 1 else 0
    {
      hide OutgoingOk, IncomingOk, EndpointsOk, LabelsOk, PropsOk, GraphOk;
      FreshIds(View());
      ApplyKeepsGraphOk(View(), Op.CreateEdge(relType, src, dst, props));
      if src !in nodes {
        return Err(SourceNotFound(src));
      }
      if dst !in nodes {
        return Err(DestinationNotFound(dst));
      }
      var id := nextEdgeId;
      edgeAdjacency := Pushed(edgeAdjacency, (src, relType, dst), id);
      edges := edges[id := Edge(id, relType, src, dst, props)];
      outgoing := Pushed(outgoing, src, id);
      incoming := Pushed(incoming, dst, id);
      nextEdgeId := nextEdgeId + 1;
      r := Ok(id);
      PushKeepsOutgoing(old(outgoing), old(edges), edges[id]);
      PushKeepsIncoming(old(incoming), old(edges), edges[id]);
      PushKeepsEndpoints(old(edgeAdjacency), old(edges), edges[id]);
    }

    method SetNodeProperty(id: NodeId, key: string, value: PropertyValue)
      requires Valid()
      modifies this
      ensures Valid()
      ensures View() == Apply(old(View()), Op.SetNodeProperty(id, key, value))
      ensures id !in old(nodes) ==> View() == old(View())
      ensures id in old(nodes) ==> NodeRewritten(old(View()), View(), id, old(nodes)[id].labels, old(nodes)[id].props[key := value])
    {
      hide OutgoingOk, IncomingOk, EndpointsOk, LabelsOk, PropsOk, GraphOk;
      hide PropsIndexed, OtherPropsKept, PropInserted, PropErased;
      ApplyKeepsGraphOk(View(), Op.SetNodeProperty(id, key, value));
      IdsMatch(View());
      if id in nodes {
        var node := nodes[id];
        NodeIsIndexed(labelIndex, propertyIndex, nodes, id);
        ReindexPair(propertyIndex, id, node.props, key, value);
        if key in node.props {
          propertyIndex := PropErased(propertyIndex, key, KeyOf(node.props[key]), id);
        }
        propertyIndex := PropInserted(propertyIndex, key, KeyOf(value), id);
        nodes := nodes[id := node.(props := node.props[key := value])];
        UpdateKeepsProps(old(propertyIndex), propertyIndex, old(nodes), nodes[id]);
        SameLabelsKeepLabels(labelIndex, old(nodes), nodes);
      }
    }

    method SetNodeAllProperties(id: NodeId, props: Props)
      requires Valid()
      modifies this
      ensures Valid()
      ensures View() == Apply(old(View()), Op.SetNodeAllProperties(id, props))
      ensures id !in old(nodes) ==> View() == old(View())
      ensures id in old(nodes) ==> NodeRewritten(old(View()), View(), id, old(nodes)[id].labels, props)
    {
      hide OutgoingOk, IncomingOk, EndpointsOk, LabelsOk, PropsOk, GraphOk;
      hide PropsAdded, PropsTakenOut, LabelsAdded, LabelsTakenOut;
      ApplyKeepsGraphOk(View(), Op.SetNodeAllProperties(id, props));
      if id in nodes {
        var node := nodes[id];
        propertyIndex := UnindexProps(propertyIndex, id, node.props);
        ghost var without := propertyIndex;
        propertyIndex := IndexProps(propertyIndex, id, props);
        nodes := nodes[id := node.(props := props)];
        ReplaceKeepsProps(old(propertyIndex), without, propertyIndex, old(nodes), id, props);
        SameLabelsKeepLabels(labelIndex, old(nodes), nodes);
      }
    }

    method MergeNodeProperties(id: NodeId, props: Props)
      requires Valid()
      modifies this
      ensures Valid()
      ensures View() == Apply(old(View()), Op.MergeNodeProperties(id, props))
      ensures id !in old(nodes) ==> View() == old(View())
      ensures id in old(nodes) ==> exists after ::
                Overlaid(old(nodes)[id].props, props, after) && NodeRewritten(old(View()), View(), id, old(nodes)[id].labels, after)
    {
      hide OutgoingOk, IncomingOk, EndpointsOk, LabelsOk, PropsOk, GraphOk;
      hide PropsIndexed, OtherPropsKept;
      ApplyKeepsGraphOk(View(), Op.MergeNodeProperties(id, props));
      IdsMatch(View());
      if id in nodes {
        NodeIsIndexed(labelIndex, propertyIndex, nodes, id);
        var merged;
        propertyIndex, merged := MergeProps(propertyIndex, id, nodes[id].props, props);
        nodes := nodes[id := nodes[id].(props := merged)];
        assert Overlaid(old(nodes)[id].props, props, merged);
        UpdateKeepsProps(old(propertyIndex), propertyIndex, old(nodes), nodes[id]);
        SameLabelsKeepLabels(labelIndex, old(nodes), nodes);
      }
    }

    method RemoveNodeProperty(id: NodeId, key: string)
      requires Valid()
      modifies this
      ensures Valid()
      ensures View() == Apply(old(View()), Op.RemoveNodeProperty(id, key))
      ensures id !in old(nodes) ==> View() == old(View())
      ensures id in old(nodes) ==> NodeRewritten(old(View()), View(), id, old(nodes)[id].labels, old(nodes)[id].props - {key})
    {
      hide OutgoingOk, IncomingOk, EndpointsOk, LabelsOk, PropsOk, GraphOk;
      ApplyKeepsGraphOk(View(), Op.RemoveNodeProperty(id, key));
      if id in nodes {
        var node := nodes[id];
        if key in node.props {
          RemoveKeepsProps(propertyIndex, nodes, id, key);
          SameLabelsKeepLabels(labelIndex, nodes, nodes[id := node.(props := node.props - {key})]);
          nodes := nodes[id := node.(props := node.props - {key})];
          propertyIndex := PropErased(propertyIndex, key, KeyOf(node.props[key]), id);
        } else {
          assert node.props - {key} == node.props;
        }
      }
    }

    method AddNodeLabels(id: NodeId, labels: seq<string>)
      requires Valid()
      modifies this
      ensures Valid()
      ensures View() == Apply(old(View()), Op.AddNodeLabels(id, labels))
      ensures id !in old(nodes) ==> View() == old(View())
      ensures id in old(nodes) ==> id in nodes && exists at ::
                && old(nodes)[id].labels <= nodes[id].labels && PickedAt(nodes[id].labels[|old(nodes)[id].labels|..], labels, at)
                && (forall l :: l in nodes[id].labels <==> l in old(nodes)[id].labels || l in labels)
                && (NoDup(old(nodes)[id].labels) ==> NoDup(nodes[id].labels))
                && NodeRewritten(old(View()), View(), id, nodes[id].labels, old(nodes)[id].props)
    {
      hide OutgoingOk, IncomingOk, EndpointsOk, LabelsOk, PropsOk, GraphOk;
      hide LabelsIndexed, OtherLabelsKept;
      ApplyKeepsGraphOk(View(), Op.AddNodeLabels(id, labels));
      IdsMatch(View());
      if id in nodes {
        NodeIsIndexed(labelIndex, propertyIndex, nodes, id);
        var after;
        labelIndex, after := AddLabels(labelIndex, id, nodes[id].labels, labels);
        ghost var at := LabelsFollow(nodes[id].labels, labels);
        nodes := nodes[id := nodes[id].(labels := after)];
        UpdateKeepsLabels(old(labelIndex), labelIndex, old(nodes), nodes[id]);
        SamePropsKeepProps(propertyIndex, old(nodes), nodes);
      }
    }

    method RemoveNodeLabels(id: NodeId, labels: seq<string>)
      requires Valid()
      modifies this
      ensures Valid()
      ensures View() == Apply(old(View()), Op.RemoveNodeLabels(id, labels))
      ensures id !in old(nodes) ==> View() == old(View())
      ensures id in old(nodes) ==> id in nodes && exists at ::
                && PickedAt(nodes[id].labels, old(nodes)[id].labels, at)
                && (forall i :: i in at <==> 0 <= i < |old(nodes)[id].labels| && old(nodes)[id].labels[i] !in labels)
                && NodeRewritten(old(View()), View(), id, nodes[id].labels, old(nodes)[id].props)
    {
      hide OutgoingOk, IncomingOk, EndpointsOk, LabelsOk, PropsOk, GraphOk;
      hide LabelsIndexed, OtherLabelsKept;
      ApplyKeepsGraphOk(View(), Op.RemoveNodeLabels(id, labels));
      IdsMatch(View());
      if id in nodes {
        NodeIsIndexed(labelIndex, propertyIndex, nodes, id);
        var after;
        labelIndex, after := RemoveLabels(labelIndex, id, nodes[id].labels, labels);
        ghost var at := LabelsStay(nodes[id].labels, labels);
        nodes := nodes[id := nodes[id].(labels := after)];
        UpdateKeepsLabels(old(labelIndex), labelIndex, old(nodes), nodes[id]);
        SamePropsKeepProps(propertyIndex, old(nodes), nodes);
      }
    }

    method SetEdgeProperty(id: EdgeId, key: string, value: PropertyValue)
      requires Valid()
      modifies this
      ensures Valid()
      ensures View() == Apply(old(View()), Op.SetEdgeProperty(id, key, value))
      ensures id !in old(edges) ==> View() == old(View())
      ensures id in old(edges) ==> EdgeRewritten(old(View()), View(), id, old(edges)[id].props[key := value])
    {
      if id in edges {
        ReplaceEdgeProps(id, edges[id].props[key := value]);
      }
    }

    method SetEdgeAllProperties(id: EdgeId, props: Props)
      requires Valid()
      modifies this
      ensures Valid()
      ensures View() == Apply(old(View()), Op.SetEdgeAllProperties(id, props))
      ensures id !in old(edges) ==> View() == old(View())
      ensures id in old(edges) ==> EdgeRewritten(old(View()), View(), id, props)
    {
      if id in edges {
        ReplaceEdgeProps(id, props);
      }
    }

    method MergeEdgeProperties(id: EdgeId, props: Props)
      requires Valid()
      modifies this
      ensures Valid()
      ensures View() == Apply(old(View()), Op.MergeEdgeProperties(id, props))
      ensures id !in old(edges) ==> View() == old(View())
      ensures id in old(edges) ==> exists after ::
                Overlaid(old(edges)[id].props, props, after) && EdgeRewritten(old(View()), View(), id, after)
    {
      if id in edges {
        ghost var merged := edges[id].props + props;
        assert Overlaid(edges[id].props, props, merged);
        ReplaceEdgeProps(id, edges[id].props + props);
        assert EdgeRewritten(old(View()), View(), id, merged);
      }
    }

    method RemoveEdgeProperty(id: EdgeId, key: string)
      requires Valid()
      modifies this
      ensures Valid()
      ensures View() == Apply(old(View()), Op.RemoveEdgeProperty(id, key))
      ensures id !in old(edges) ==> View() == old(View())
      ensures id in old(edges) ==> EdgeRewritten(old(View()), View(), id, old(edges)[id].props - {key})
    {
      if id in edges {
        ReplaceEdgeProps(id, edges[id].props - {key});
      }
    }

    // Edge properties are in no index.
    method ReplaceEdgeProps(id: EdgeId, props: Props)
      requires Valid() && id in edges
      modifies this
      ensures Valid()
      ensures View() == SetEdgeProps(old(View()), id, props)
    {
      hide OutgoingOk, IncomingOk, EndpointsOk, LabelsOk, PropsOk, GraphOk;
      ApplyKeepsGraphOk(View(), Op.SetEdgeAllProperties(id, props));
      SameShapesKeepEdgeTables(outgoing, incoming, edgeAdjacency, edges, edges[id := edges[id].(props := props)]);
      edges := edges[id := edges[id].(props := props)];
    }

    // Drop one edge from the endpoint index, and the entry when it empties.
    method RemoveEdgeAdjacency(edge: Edge)
      modifies this`edgeAdjacency
      ensures forall k :: At(edgeAdjacency, k) ==
                if k == (edge.src, edge.relType, edge.dst) then Without(At(old(edgeAdjacency), k), edge.id)
                else At(old(edgeAdjacency), k)
    {
      var key := (edge.src, edge.relType, edge.dst);
      if key in edgeAdjacency {
        edgeAdjacency := Retained(edgeAdjacency, key, edge.id);
        if edgeAdjacency[key] == [] {
          edgeAdjacency := edgeAdjacency - {key};
        }
      }
    }

    method DeleteEdge(id: EdgeId) returns (r: Outcome<()>)
      requires Valid()
      modifies this
      ensures Valid()
      ensures View() == Apply(old(View()), Op.DeleteEdge(id))
      ensures r == if id in old(edges) then Ok(()) else Err(EdgeNotFound(id))
      ensures edges == old(edges) - {id} && nodes == old(nodes)
      ensures nextNodeId == old(nextNodeId) && nextEdgeId == old(nextEdgeId)
    {
      hide OutgoingOk, IncomingOk, EndpointsOk, LabelsOk, PropsOk, GraphOk;
      IdsMatch(View());
      ApplyKeepsGraphOk(View(), Op.DeleteEdge(id));
      if id in edges {
        var edge := edges[id];
        edges := edges - {id};
        outgoing := Retained(outgoing, edge.src, id);
        incoming := Retained(incoming, edge.dst, id);
        RemoveEdgeAdjacency(edge);
        EraseKeepsBothLists(old(outgoing), old(incoming), old(edges), edge);
        EraseKeepsEndpoints(old(edgeAdjacency), edgeAdjacency, old(edges), edge);
        r := Ok(());
      } else {
        assert edges - {id} == edges;
        r := Err(EdgeNotFound(id));
      }
    }

    method DeleteNode(id: NodeId, detach: bool) returns (r: Outcome<()>)
      requires Valid()
      modifies this
      ensures Valid()
      ensures View() == Apply(old(View()), Op.DeleteNode(id, detach))
      ensures nodes == old(nodes) - (if r.Ok? then {id} else {})
      ensures edges.Keys == set e | e in old(edges) && !(r.Ok? && (old(edges)[e].src == id || old(edges)[e].dst == id))
      ensures forall e :: e in edges ==> edges[e] == old(edges)[e]
      ensures nextNodeId == old(nextNodeId) && nextEdgeId == old(nextEdgeId)
      ensures r == if id !in old(nodes) then Err(NodeNotFound(id))
                   else if !detach && !Isolated(old(View()), id) then Err(StillHasRelationships(id))
                   else Ok(())
    {
      hide OutgoingOk, IncomingOk, EndpointsOk, LabelsOk, PropsOk, GraphOk;
      hide OutgoingOkExcept, IncomingOkExcept;
      ApplyKeepsGraphOk(View(), Op.DeleteNode(id, detach));
      if id !in nodes {
        return Err(NodeNotFound(id));
      }
      var hasOutgoing := exists e :: e in At(outgoing, id) && e in edges;
      var hasIncoming := exists e :: e in At(incoming, id) && e in edges;
      ListsSeeEdges(outgoing, incoming, edges, id);
      if !detach && (hasOutgoing || hasIncoming) {
        return Err(StillHasRelationships(id));
      }
      if detach {
        DetachEdges(id);
      } else {
        assert edges == EraseNode(View(), id).edges;
        OkImpliesExcept(outgoing, incoming, edges, id);
      }
      DropListKeepsBoth(outgoing, incoming, edges, id);
      outgoing := outgoing - {id};
      incoming := incoming - {id};
      DropNodeFromIndexes(id);
      r := Ok(());
    }

    method DropNodeFromIndexes(id: NodeId)
      requires id in nodes && LabelsOk(labelIndex, nodes) && PropsOk(propertyIndex, nodes)
      modifies this`nodes, this`labelIndex, this`propertyIndex
      ensures nodes == old(nodes) - {id}
      ensures LabelsOk(labelIndex, nodes) && PropsOk(propertyIndex, nodes)
    {
      var node := nodes[id];
      labelIndex := UnindexLabels(labelIndex, id, node.labels);
      propertyIndex := UnindexProps(propertyIndex, id, node.props);
      nodes := nodes - {id};
      assert forall l, i {:trigger i in LabelPosting(labelIndex, l)} ::
        i in LabelPosting(old(labelIndex), l) <==> i in old(nodes) && l in old(nodes)[i].labels;
      assert forall k, v, i {:trigger i in PropPosting(propertyIndex, k, v)} ::
        i in PropPosting(old(propertyIndex), k, v) <==> i in old(nodes) && IndexedUnder(old(nodes)[i].props, k, v);
    }

    // Remove every edge at `id`. The node's own lists are left stale: the
    // caller drops them whole.
    method DetachEdges(id: NodeId)
      requires Valid()
      modifies this`edges, this`outgoing, this`incoming, this`edgeAdjacency
      ensures edges == EraseNode(old(View()), id).edges
      ensures OutgoingOkExcept(outgoing, edges, id)
      ensures IncomingOkExcept(incoming, edges, id)
      ensures EndpointsOk(edgeAdjacency, edges)
    {
      hide OutgoingOk, IncomingOk, EndpointsOk, OutgoingOkExcept, IncomingOkExcept, LabelsOk, PropsOk, GraphOk, Remaining;
      ListsSeeEdges(outgoing, incoming, edges, id);
      OkImpliesExcept(outgoing, incoming, edges, id);
      var rest: set<EdgeId> := (set e: EdgeId | e in At(outgoing, id)) + (set e: EdgeId | e in At(incoming, id));
      ghost var touching := rest;
      EraseIsSubtraction(View(), id, touching);
      RemainingEnds(edges, touching);
      while rest != {}
        invariant rest <= touching && edges == Remaining(old(edges), touching, rest)
        invariant OutgoingOkExcept(outgoing, edges, id)
        invariant IncomingOkExcept(incoming, edges, id)
        invariant EndpointsOk(edgeAdjacency, edges)
        decreases |rest|
      {
        var eid :| eid in rest;
        RemainingStep(old(edges), touching, rest, eid);
        DetachEdge(eid, id);
        rest := rest - {eid};
      }
    }

    method DetachEdge(eid: EdgeId, id: NodeId)
      requires eid in edges && edges[eid].id == eid
      requires OutgoingOkExcept(outgoing, edges, id) && IncomingOkExcept(incoming, edges, id)
      requires EndpointsOk(edgeAdjacency, edges)
      modifies this`edges, this`outgoing, this`incoming, this`edgeAdjacency
      ensures edges == old(edges) - {eid}
      ensures OutgoingOkExcept(outgoing, edges, id) && IncomingOkExcept(incoming, edges, id)
      ensures EndpointsOk(edgeAdjacency, edges)
    {
      hide EndpointsOk, OutgoingOkExcept, IncomingOkExcept;
      var edge := edges[eid];
      EraseKeepsOutgoing(outgoing, edges, edge, id);
      EraseKeepsIncoming(incoming, edges, edge, id);
      edges := edges - {eid};
      if edge.src != id {
        outgoing := Retained(outgoing, edge.src, eid);
      }
      if edge.dst != id {
        incoming := Retained(incoming, edge.dst, eid);
      }
      RemoveEdgeAdjacency(edge);
      EraseKeepsEndpoints(old(edgeAdjacency), edgeAdjacency, old(edges), edge);
    }

    // Any sequence of writes: the invariant holds after it and the graph is
    // the one the operations describe, errors leaving it as it was.
    method Run(ops: seq<Op>)
      requires Valid()
      modifies this
      ensures Valid()
      ensures View() == ApplyAll(old(View()), ops)
    {
      hide Apply;
      for j := 0 to |ops|
        invariant Valid()
        invariant ApplyAll(View(), ops[j..]) == ApplyAll(old(View()), ops)
      {
        assert ops[j..][0] == ops[j] && ops[j..][1..] == ops[j + 1..];
        match ops[j] {
          case CreateNode(labels, props) => var _ := CreateNode(labels, props);
          case CreateEdge(t, src, dst, props) => var _ := CreateEdge(t, src, dst, props);
          case SetNodeProperty(id, k, v) => SetNodeProperty(id, k, v);
          case SetNodeAllProperties(id, props) => SetNodeAllProperties(id, props);
          case MergeNodeProperties(id, props) => MergeNodeProperties(id, props);
          case RemoveNodeProperty(id, k) => RemoveNodeProperty(id, k);
          case AddNodeLabels(id, ls) => AddNodeLabels(id, ls);
          case RemoveNodeLabels(id, ls) => RemoveNodeLabels(id, ls);
          case SetEdgeProperty(id, k, v) => SetEdgeProperty(id, k, v);
          case SetEdgeAllProperties(id, props) => SetEdgeAllProperties(id, props);
          case MergeEdgeProperties(id, props) => MergeEdgeProperties(id, props);
          case RemoveEdgeProperty(id, k) => RemoveEdgeProperty(id, k);
          case DeleteNode(id, detach) => var _ := DeleteNode(id, detach);
          case DeleteEdge(id) => var _ := DeleteEdge(id);
        }
      }
    }
  }

  // --- Facts behind the reads ---

  lemma StorageIsOk(storage: MemoryStorage)
    requires storage.Valid()
    ensures GraphOk(storage.View())
  {
  }

  lemma PostingNarrows(m: PropIndex, nodes: map<NodeId, Node>, props: Props, rest: set<string>, k: string)
    requires PropsOk(m, nodes) && k in rest && rest <= props.Keys
    ensures forall i :: i in nodes && HasPropsByKey(nodes[i].props, props - (rest - {k})) <==>
              i in PropPosting(m, k, KeyOf(props[k])) && HasPropsByKey(nodes[i].props, props - rest)
    ensures forall i :: i in PropPosting(m, k, KeyOf(props[k])) ==> i in nodes
    ensures forall i :: i in nodes ==> (rest == props.Keys ==> HasPropsByKey(nodes[i].props, props - rest))
  {
    var posting := PropPosting(m, k, KeyOf(props[k]));
    forall i | i in nodes
      ensures HasPropsByKey(nodes[i].props, props - (rest - {k})) <==>
              i in posting && HasPropsByKey(nodes[i].props, props - rest)
    {
      assert i in posting <==> IndexedUnder(nodes[i].props, k, KeyOf(props[k]));
      if HasPropsByKey(nodes[i].props, props - (rest - {k})) {
        assert k in props - (rest - {k});
      }
    }
  }

  // A posting list holds what the seed of its kind says.
  lemma PostingsAreSeeds(storage: MemoryStorage, labels: seq<string>, props: Props)
    requires storage.Valid()
    ensures labels != [] ==> LabelPosting(storage.labelIndex, labels[0]) == SeedSet(storage.View(), labels, props, ByLabel)
    ensures forall k :: k in props ==>
              PropPosting(storage.propertyIndex, k, KeyOf(props[k])) == SeedSet(storage.View(), labels, props, ByKey(k))
  {
    forall k | k in props
      ensures PropPosting(storage.propertyIndex, k, KeyOf(props[k])) == SeedSet(storage.View(), labels, props, ByKey(k))
    {
      forall i ensures i in PropPosting(storage.propertyIndex, k, KeyOf(props[k])) <==>
                       i in storage.nodes && IndexedUnder(storage.nodes[i].props, k, KeyOf(props[k])) {}
    }
  }

  // The best list so far, and the seed it belongs to.
  ghost predicate SeedSoFar(g: Graph, labels: seq<string>, props: Props, rest: set<string>, seed: Seed, best: Option<set<NodeId>>) {
    && Smallest(g, labels, props, props.Keys - rest, seed)
    && best == if seed.EveryNode? then None else Some(SeedSet(g, labels, props, seed))
  }

  lemma NothingSeeded(g: Graph, labels: seq<string>, props: Props)
    ensures labels == [] ==> SeedSoFar(g, labels, props, props.Keys, EveryNode, None)
    ensures labels != [] ==> SeedSoFar(g, labels, props, props.Keys, ByLabel, Some(SeedSet(g, labels, props, ByLabel)))
  {
    assert props.Keys - props.Keys == {};
  }

  lemma SeedStep(g: Graph, labels: seq<string>, props: Props, rest: set<string>, seed: Seed, best: Option<set<NodeId>>, k: string)
    requires k in rest && rest <= props.Keys && SeedSoFar(g, labels, props, rest, seed, best)
    ensures var ids := SeedSet(g, labels, props, ByKey(k));
            if best.None? || |ids| < |best.value| then SeedSoFar(g, labels, props, rest - {k}, ByKey(k), Some(ids))
            else SeedSoFar(g, labels, props, rest - {k}, seed, best)
  {
    hide SeedSet;
    assert props.Keys - (rest - {k}) == (props.Keys - rest) + {k};
  }

  lemma SeedEnds(g: Graph, labels: seq<string>, props: Props, seed: Seed, best: Option<set<NodeId>>, ids: seq<NodeId>)
    requires SeedSoFar(g, labels, props, {}, seed, best)
    requires Enumerates(ids, (if best.Some? then best.value else g.nodes.Keys) * FindSet(g, labels, props))
    ensures Finds(g, labels, props, ids)
  {
    hide FindSet;
    assert props.Keys - {} == props.Keys;
  }

  lemma BetweenIsScan(g: Graph, src: NodeId, relType: string, dst: NodeId, ids: seq<EdgeId>)
    requires Lists(ids, BetweenSet(g.edges, (src, relType, dst)))
    ensures forall e :: e in ids ==> e in g.edges
    ensures EdgesOf(g, ids) == ScanBetween(EdgesOf(g, OutIds(g, src)), relType, dst)
  {
    var out := OutIds(g, src);
    var kept := ScanBetweenIds(g, out, relType, dst);
    ScanBetweenIdsSorted(g, out, relType, dst);
    ListingIsUnique(ids, kept, BetweenSet(g.edges, (src, relType, dst)));
    ScanBetweenByIds(g, out, relType, dst);
  }

  ghost function ScanBetweenIds(g: Graph, ids: seq<EdgeId>, relType: string, dst: NodeId): (r: seq<EdgeId>)
    requires forall e :: e in ids ==> e in g.edges
    ensures forall e :: e in r <==> e in ids && g.edges[e].relType == relType && g.edges[e].dst == dst
  {
    if ids == [] then []
    else if g.edges[ids[0]].relType == relType && g.edges[ids[0]].dst == dst then
      [ids[0]] + ScanBetweenIds(g, ids[1..], relType, dst)
    else ScanBetweenIds(g, ids[1..], relType, dst)
  }

  lemma {:induction false} ScanBetweenIdsSorted(g: Graph, ids: seq<EdgeId>, relType: string, dst: NodeId)
    requires forall e :: e in ids ==> e in g.edges
    requires StrictlySorted(ids)
    ensures StrictlySorted(ScanBetweenIds(g, ids, relType, dst))
  {
    if ids != [] {
      ScanBetweenIdsSorted(g, ids[1..], relType, dst);
      var r := ScanBetweenIds(g, ids[1..], relType, dst);
      assert forall j :: 0 <= j < |r| ==> r[j] in ids[1..];
    }
  }

  lemma {:induction false} ScanBetweenByIds(g: Graph, ids: seq<EdgeId>, relType: string, dst: NodeId)
    requires forall e :: e in ids ==> e in g.edges
    ensures EdgesOf(g, ScanBetweenIds(g, ids, relType, dst)) == ScanBetween(EdgesOf(g, ids), relType, dst)
  {
    if ids != [] {
      var rest := ids[1..];
      ScanBetweenByIds(g, rest, relType, dst);
      EdgesOfCons(g, ids);
      var (e, kept) := (g.edges[ids[0]], ScanBetweenIds(g, rest, relType, dst));
      if e.relType == relType && e.dst == dst {
        EdgesOfCons(g, [ids[0]] + kept);
        assert ([ids[0]] + kept)[1..] == kept;
      }
      hide EdgesOf;
    }
  }

  lemma EdgesOfCons(g: Graph, ids: seq<EdgeId>)
    requires ids != [] && forall e :: e in ids ==> e in g.edges
    ensures EdgesOf(g, ids) == [g.edges[ids[0]]] + EdgesOf(g, ids[1..])
    ensures EdgesOf(g, ids)[0] == g.edges[ids[0]] && EdgesOf(g, ids)[1..] == EdgesOf(g, ids[1..])
  {
  }
}
