// The endpoint probe of chain MERGE against the adjacency scan it replaces.

module MergeProbe {
  import opened GraphTypes
  import opened Sequences
  import opened AbstractGraph
  import opened Trails
  import opened Planner
  import opened MatchExecution
  import opened MatchChain
  import opened ChainMerge

  lemma {:induction false} ScanBetweenCount(es: seq<Edge>, relType: string, dst: NodeId, e: Edge)
    ensures multiset(ScanBetween(es, relType, dst))[e] ==
            if e.relType == relType && e.dst == dst then multiset(es)[e] else 0
  {
    if es != [] {
      assert es == [es[0]] + es[1..];
      ScanBetweenCount(es[1..], relType, dst, e);
    }
  }

  // `e` leads from `prev` to `dst` in the direction of the pattern.
  predicate Joins(dir: Direction, prev: NodeId, dst: NodeId, e: Edge) {
    Leaves(dir, e, prev) && Far(dir, e, prev) == dst
  }

  lemma BetweenCount(g: Graph, src: NodeId, relType: string, dst: NodeId, e: Edge)
    requires GraphOk(g)
    ensures multiset(Between(g, src, relType, dst))[e] ==
            if LiveEdge(g, e) && e.src == src && e.relType == relType && e.dst == dst then 1 else 0
  {
    ScanBetweenCount(EdgesOf(g, OutIds(g, src)), relType, dst, e);
    CandidateEdgeCount(g, Outgoing, src, e);
    assert CandidateEdges(g, Outgoing, src) == EdgesOf(g, OutIds(g, src));
  }

  lemma ProbedCount(g: Graph, dir: Direction, prev: NodeId, dst: NodeId, relType: string, e: Edge)
    requires GraphOk(g)
    ensures multiset(Probed(g, dir, prev, dst, relType))[e] ==
            if e.relType == relType && LiveEdge(g, e) && Joins(dir, prev, dst, e) then HopFactor(dir, e) else 0
  {
    hide Between, LiveEdge, GraphOk;
    BetweenCount(g, prev, relType, dst, e);
    BetweenCount(g, dst, relType, prev, e);
    if dir.Undirected? {
      MultisetConcat(Between(g, prev, relType, dst), Between(g, dst, relType, prev), e);
    }
  }

  // How often the probe returns an edge: as often as the scan does, once for
  // every time its type is listed.
  lemma {:induction false} ProbedAllCount(g: Graph, dir: Direction, prev: NodeId, dst: NodeId, relTypes: seq<string>, e: Edge)
    requires GraphOk(g)
    ensures multiset(ProbedAll(g, dir, prev, dst, relTypes))[e] ==
            Times(multiset(relTypes)[e.relType],
                  if LiveEdge(g, e) && Joins(dir, prev, dst, e) then HopFactor(dir, e) else 0)
    decreases |relTypes|
  {
    hide LiveEdge, Joins, Probed, HopFactor, GraphOk;
    var one := if LiveEdge(g, e) && Joins(dir, prev, dst, e) then HopFactor(dir, e) else 0;
    if relTypes != [] {
      var (before, t) := (Init(relTypes), Last(relTypes));
      var (some, more) := (ProbedAll(g, dir, prev, dst, before), Probed(g, dir, prev, dst, t));
      assert relTypes == before + [t];
      assert ProbedAll(g, dir, prev, dst, relTypes) == some + more;
      hide ProbedAll, Times;
      ProbedAllCount(g, dir, prev, dst, before, e);
      ProbedCount(g, dir, prev, dst, t, e);
      MultisetConcat(some, more, e);
      MultisetConcat(before, [t], e.relType);
      OneMore(multiset(before)[e.relType], one);
    }
  }

  lemma OneMore(n: nat, one: nat)
    ensures Times(n + 1, one) == Times(n, one) + one
  {
  }

  lemma ProbeCount(g: Graph, rel: RelPattern, prev: NodeId, dst: NodeId, e: Edge)
    requires GraphOk(g) && rel.relTypes != []
    ensures multiset(EdgesFor(g, rel, prev, Some(dst)))[e] ==
            Times(multiset(rel.relTypes)[e.relType],
                  if Far(rel.dir, e, prev) == dst then multiset(CandidateEdges(g, rel.dir, prev))[e] else 0)
  {
    ProbedAllCount(g, rel.dir, prev, dst, rel.relTypes, e);
    CandidateEdgeCount(g, rel.dir, prev, e);
  }

  // --- Extensions ---

  function Passing(g: Graph, el: Element, c: Candidate, relProps: Props, nodeProps: Props, es: seq<Edge>): seq<Edge> {
    if es == [] then []
    else
      Passing(g, el, c, relProps, nodeProps, Init(es))
      + if Passes(g, el, c.at, BoundId(c.rec, el.node.variable), relProps, nodeProps, Last(es)) then [Last(es)] else []
  }

  lemma {:induction false} PassingCount(g: Graph, el: Element, c: Candidate, relProps: Props, nodeProps: Props, es: seq<Edge>, e: Edge)
    ensures multiset(Passing(g, el, c, relProps, nodeProps, es))[e] ==
            if Passes(g, el, c.at, BoundId(c.rec, el.node.variable), relProps, nodeProps, e) then multiset(es)[e] else 0
    decreases |es|
  {
    hide Passes;
    if es != [] {
      assert es == Init(es) + [Last(es)];
      PassingCount(g, el, c, relProps, nodeProps, Init(es), e);
    }
  }

  function Advance(g: Graph, el: Element, c: Candidate, es: seq<Edge>): (r: seq<Candidate>)
    requires forall i :: 0 <= i < |es| ==> Far(el.rel.dir, es[i], c.at) in g.nodes
    ensures |r| == |es|
    ensures forall i :: 0 <= i < |es| ==> r[i] == Advanced(g, c.rec, el, c.at, es[i])
  {
    seq(|es|, i requires 0 <= i < |es| => Advanced(g, c.rec, el, c.at, es[i]))
  }

  lemma {:induction false} ThroughIs(g: Graph, el: Element, c: Candidate, relProps: Props, nodeProps: Props, es: seq<Edge>)
    ensures var kept := Passing(g, el, c, relProps, nodeProps, es);
            && (forall i :: 0 <= i < |kept| ==> Far(el.rel.dir, kept[i], c.at) in g.nodes)
            && Through(g, el, c, relProps, nodeProps, es) == Advance(g, el, c, kept)
    decreases |es|
  {
    hide NodeFits, PropsMatch, TypeOk, Advanced;
    if es != [] {
      ThroughIs(g, el, c, relProps, nodeProps, Init(es));
    }
  }

  lemma {:induction false} AdvancePermuted(g: Graph, el: Element, c: Candidate, a: seq<Edge>, b: seq<Edge>)
    requires multiset(a) == multiset(b)
    requires forall i :: 0 <= i < |a| ==> Far(el.rel.dir, a[i], c.at) in g.nodes
    requires forall i :: 0 <= i < |b| ==> Far(el.rel.dir, b[i], c.at) in g.nodes
    ensures multiset(Advance(g, el, c, a)) == multiset(Advance(g, el, c, b))
    decreases |a|
  {
    assert |a| == |b| by {
      assert |multiset(a)| == |a| && |multiset(b)| == |b|;
    }
    if a == [] {
      assert b == [];
    } else {
      hide Far, Advanced;
      var i := RemoveMatching(a, b);
      var rest := b[..i] + b[i + 1..];
      AdvancePermuted(g, el, c, Init(a), rest);
      var (x, y) := (Advance(g, el, c, a), Advance(g, el, c, b));
      assert x == Advance(g, el, c, Init(a)) + [x[|a| - 1]];
      assert Advance(g, el, c, rest) == y[..i] + y[i + 1..];
      MultisetSplit(y, i);
    }
  }

  // With distinct relationship types the probe yields the multiset of
  // extensions the scan yields.
  lemma ProbeEqualsScan(g: Graph, el: Element, c: Candidate, relProps: Props, nodeProps: Props)
    requires GraphOk(g) && NoDup(el.rel.relTypes)
    ensures multiset(Through(g, el, c, relProps, nodeProps, EdgesFor(g, el.rel, c.at, BoundId(c.rec, el.node.variable)))) ==
            multiset(Through(g, el, c, relProps, nodeProps, CandidateEdges(g, el.rel.dir, c.at)))
  {
    var bound := BoundId(c.rec, el.node.variable);
    var (probe, scan) := (EdgesFor(g, el.rel, c.at, bound), CandidateEdges(g, el.rel.dir, c.at));
    var (a, b) := (Passing(g, el, c, relProps, nodeProps, probe), Passing(g, el, c, relProps, nodeProps, scan));
    forall e ensures multiset(a)[e] == multiset(b)[e] {
      PassingCount(g, el, c, relProps, nodeProps, probe, e);
      PassingCount(g, el, c, relProps, nodeProps, scan, e);
      if bound.Some? && el.rel.relTypes != [] {
        ProbeCount(g, el.rel, c.at, bound.value, e);
        NoDupMultiset(el.rel.relTypes, e.relType);
      }
    }
    assert multiset(a) == multiset(b);
    ThroughIs(g, el, c, relProps, nodeProps, probe);
    ThroughIs(g, el, c, relProps, nodeProps, scan);
    AdvancePermuted(g, el, c, a, b);
  }

  // It does so on every graph exactly when the types are distinct: a type
  // listed twice is probed twice.
  lemma ProbeIsTight(rel: RelPattern)
    requires rel.relTypes != []
    ensures NoDup(rel.relTypes) <==>
              forall g: Graph, prev: NodeId, dst: NodeId, e: Edge |
                GraphOk(g) && TypeOk(rel.relTypes, e.relType) && Far(rel.dir, e, prev) == dst ::
                multiset(EdgesFor(g, rel, prev, Some(dst)))[e] == multiset(CandidateEdges(g, rel.dir, prev))[e]
  {
    if NoDup(rel.relTypes) {
      forall g: Graph, prev: NodeId, dst: NodeId, e: Edge | GraphOk(g) && TypeOk(rel.relTypes, e.relType) && Far(rel.dir, e, prev) == dst
        ensures multiset(EdgesFor(g, rel, prev, Some(dst)))[e] == multiset(CandidateEdges(g, rel.dir, prev))[e]
      {
        ProbeCount(g, rel, prev, dst, e);
        NoDupMultiset(rel.relTypes, e.relType);
      }
    } else {
      RepeatedTypeDiffers(rel);
    }
  }

  lemma RepeatedTypeDiffers(rel: RelPattern)
    requires !NoDup(rel.relTypes)
    ensures exists g: Graph, prev: NodeId, dst: NodeId, e: Edge ::
              && GraphOk(g) && TypeOk(rel.relTypes, e.relType) && Far(rel.dir, e, prev) == dst
              && multiset(EdgesFor(g, rel, prev, Some(dst)))[e] != multiset(CandidateEdges(g, rel.dir, prev))[e]
  {
    var t := RepeatedType(rel.relTypes);
    var (g, e) := (OneEdge(t), Edge(0, t, 0, 1, map[]));
    var prev := if rel.dir.Incoming? then 1 else 0;
    OneEdgeCount(t, rel.dir);
    hide EdgesFor, CandidateEdges, OneEdge;
    ProbeCount(g, rel, prev, Far(rel.dir, e, prev), e);
  }

  function OneEdge(t: string): (g: Graph) {
    Graph(map[0 := Node(0, [], map[]), 1 := Node(1, [], map[])], map[0 := Edge(0, t, 0, 1, map[])], 2, 1)
  }

  lemma OneEdgeCount(t: string, dir: Direction)
    ensures GraphOk(OneEdge(t))
    ensures multiset(CandidateEdges(OneEdge(t), dir, if dir.Incoming? then 1 else 0))[Edge(0, t, 0, 1, map[])] == 1
  {
    var (g, e, prev) := (OneEdge(t), Edge(0, t, 0, 1, map[]), if dir.Incoming? then 1 else 0);
    assert LiveEdge(g, e) && Leaves(dir, e, prev) && HopFactor(dir, e) == 1;
    hide CandidateEdges, LiveEdge;
    CandidateEdgeCount(g, dir, prev, e);
  }

  lemma RepeatedType(types: seq<string>) returns (t: string)
    requires !NoDup(types)
    ensures multiset(types)[t] > 1 && t in types
  {
    var i, j :| 0 <= i < j < |types| && types[i] == types[j];
    t := types[i];
    assert types == types[..i] + [t] + types[i + 1..j] + [t] + types[j + 1..];
  }
}
