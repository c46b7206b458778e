// Walks and trails in the abstract graph, and the breadth-first enumeration of
// trails that variable-length expansion performs.

module Trails {
  import opened GraphTypes
  import opened Sequences
  import opened AbstractGraph

  // A walk is the sequence of its edges; where it starts is part of the search.
  type Trail = seq<EdgeId>

  datatype Search = Search(dir: Direction, relTypes: seq<string>, start: NodeId)

  predicate TypeOk(relTypes: seq<string>, t: string) {
    relTypes == [] || t in relTypes
  }

  // The node an edge leads to when taken from `cur`.
  function Far(dir: Direction, e: Edge, cur: NodeId): NodeId {
    match dir
    case Outgoing => e.dst
    case Incoming => e.src
    case Undirected => if e.src == cur then e.dst else e.src
  }

  predicate Leaves(dir: Direction, e: Edge, n: NodeId) {
    match dir
    case Outgoing => e.src == n
    case Incoming => e.dst == n
    case Undirected => e.src == n || e.dst == n
  }

  ghost function Candidates(g: Graph, dir: Direction, n: NodeId): (r: seq<EdgeId>)
    ensures forall e :: e in r <==> e in g.edges && Leaves(dir, g.edges[e], n)
  {
    match dir
    case Outgoing => OutIds(g, n)
    case Incoming => InIds(g, n)
    case Undirected => OutIds(g, n) + InIds(g, n)
  }

  // Where a walk ends.
  ghost function EndOf(g: Graph, q: Search, t: Trail): NodeId {
    if t == [] then q.start
    else if Last(t) in g.edges then Far(q.dir, g.edges[Last(t)], EndOf(g, q, Init(t)))
    else q.start
  }

  // `e` may be taken after the walk `t`.
  ghost predicate StepOk(g: Graph, q: Search, t: Trail, e: EdgeId) {
    && e in g.edges
    && Leaves(q.dir, g.edges[e], EndOf(g, q, t))
    && TypeOk(q.relTypes, g.edges[e].relType)
  }

  // Consecutive edges connect in the direction of the search and have an
  // allowed type.
  ghost predicate IsWalk(g: Graph, q: Search, t: Trail) {
    t == [] || (IsWalk(g, q, Init(t)) && StepOk(g, q, Init(t), Last(t)))
  }

  // A walk that uses no relationship twice.
  ghost predicate IsTrail(g: Graph, q: Search, t: Trail) {
    IsWalk(g, q, t) && NoDup(t)
  }

  // `e` leads from `a` to `b`: along its arrow, against it, or either way.
  predicate Joins(dir: Direction, e: Edge, a: NodeId, b: NodeId) {
    || (!dir.Incoming? && e.src == a && e.dst == b)
    || (!dir.Outgoing? && e.src == b && e.dst == a)
  }

  // `nodes` are the nodes a walk passes, from the start on.
  ghost predicate Visits(g: Graph, q: Search, t: Trail, nodes: seq<NodeId>) {
    && |nodes| == |t| + 1 && nodes[0] == q.start
    && forall i :: 0 <= i < |t| ==>
         && t[i] in g.edges && Joins(q.dir, g.edges[t[i]], nodes[i], nodes[i + 1])
         && (q.relTypes == [] || g.edges[t[i]].relType in q.relTypes)
  }

  lemma JoinsMeans(dir: Direction, e: Edge, a: NodeId, b: NodeId)
    ensures Joins(dir, e, a, b) <==> Leaves(dir, e, a) && Far(dir, e, a) == b
  {
  }

  // One edge more: it joins the node reached so far to the next one.
  lemma VisitsSnoc(g: Graph, q: Search, t: Trail, ns: seq<NodeId>)
    requires t != [] && |ns| == |t| + 1
    ensures Visits(g, q, t, ns) <==>
              && Visits(g, q, Init(t), Init(ns)) && Last(t) in g.edges
              && Joins(q.dir, g.edges[Last(t)], Last(Init(ns)), Last(ns)) && TypeOk(q.relTypes, g.edges[Last(t)].relType)
  {
    hide Joins;
    var n := |t| - 1;
    assert Init(ns)[0] == ns[0] && Last(Init(ns)) == ns[n] && Last(ns) == ns[n + 1] && Last(t) == t[n];
    assert forall i :: 0 <= i < n ==> Init(t)[i] == t[i];
    assert forall i :: 0 <= i <= n ==> Init(ns)[i] == ns[i];
    if Visits(g, q, Init(t), Init(ns)) && t[n] in g.edges && Joins(q.dir, g.edges[t[n]], ns[n], ns[n + 1]) && TypeOk(q.relTypes, g.edges[t[n]].relType) {
      forall i | 0 <= i < |t|
        ensures t[i] in g.edges && Joins(q.dir, g.edges[t[i]], ns[i], ns[i + 1]) && TypeOk(q.relTypes, g.edges[t[i]].relType)
      {
        if i < n { assert Init(t)[i] in g.edges; }
      }
    }
  }

  // A walk is a sequence of edges that passes nodes, one after another, and it
  // ends at the last of them.
  lemma {:induction false} WalkMeans(g: Graph, q: Search, t: Trail) returns (nodes: seq<NodeId>)
    ensures IsWalk(g, q, t) ==> Visits(g, q, t, nodes) && |nodes| == |t| + 1 && Last(nodes) == EndOf(g, q, t)
    ensures forall ns: seq<NodeId> :: Visits(g, q, t, ns) ==> IsWalk(g, q, t) && ns == nodes
    decreases |t|
  {
    if t == [] {
      nodes := [q.start];
    } else {
      hide Visits, Joins, Leaves, Far;
      var before := WalkMeans(g, q, Init(t));
      nodes := if IsWalk(g, q, t) then before + [EndOf(g, q, t)] else [];
      if IsWalk(g, q, t) {
        JoinsMeans(q.dir, g.edges[Last(t)], Last(before), Last(nodes));
        assert Init(nodes) == before;
        VisitsSnoc(g, q, t, nodes);
      }
      forall ns: seq<NodeId> | Visits(g, q, t, ns) ensures IsWalk(g, q, t) && ns == nodes {
        assert |ns| == |t| + 1 by { VisitsLength(g, q, t, ns); }
        VisitsSnoc(g, q, t, ns);
        JoinsMeans(q.dir, g.edges[Last(t)], Last(before), Last(ns));
        assert ns == Init(ns) + [Last(ns)];
      }
    }
  }

  lemma VisitsLength(g: Graph, q: Search, t: Trail, ns: seq<NodeId>)
    requires Visits(g, q, t, ns)
    ensures |ns| == |t| + 1
  {
  }

  // --- One expansion step ---

  ghost predicate Extends(g: Graph, q: Search, t: Trail, e: EdgeId) {
    e in g.edges && e !in t && TypeOk(q.relTypes, g.edges[e].relType)
  }

  ghost function ExtendOver(g: Graph, q: Search, t: Trail, ids: seq<EdgeId>): (r: seq<Trail>)
    ensures forall x :: x in r ==> x != [] && Init(x) == t
  {
    if ids == [] then []
    else if Extends(g, q, t, ids[0]) then [t + [ids[0]]] + ExtendOver(g, q, t, ids[1..])
    else ExtendOver(g, q, t, ids[1..])
  }

  ghost function Extend(g: Graph, q: Search, t: Trail): (r: seq<Trail>)
    ensures forall x :: x in r ==> x != [] && Init(x) == t
  {
    ExtendOver(g, q, t, Candidates(g, q.dir, EndOf(g, q, t)))
  }

  // --- Breadth-first enumeration, as the queue processes it ---

  ghost function Short(max: nat, ts: seq<Trail>): (r: seq<Trail>)
    ensures forall x :: x in r ==> |x| < max && x in ts
  {
    if ts == [] then []
    else if |ts[0]| < max then [ts[0]] + Short(max, ts[1..])
    else Short(max, ts[1..])
  }

  // A bound on the work still to do for a queued trail, and for a whole queue
  // of trails of length at least `d`.
  ghost function Cost(g: Graph, q: Search, max: nat, t: Trail): nat
    decreases if |t| < max then max - |t| else 0, 0
  {
    if |t| >= max then 1 else 1 + Costs(g, q, max, |t| + 1, Extend(g, q, t))
  }

  ghost function Costs(g: Graph, q: Search, max: nat, d: nat, ts: seq<Trail>): nat
    requires forall t :: t in ts ==> |t| >= d
    decreases if d < max then max - d else 0, |ts|
  {
    if ts == [] then 0 else Cost(g, q, max, ts[0]) + Costs(g, q, max, d, ts[1..])
  }

  lemma {:induction false} CostsAppend(g: Graph, q: Search, max: nat, d: nat, a: seq<Trail>, b: seq<Trail>)
    requires forall t :: t in a ==> |t| >= d
    requires forall t :: t in b ==> |t| >= d
    ensures Costs(g, q, max, d, a + b) == Costs(g, q, max, d, a) + Costs(g, q, max, d, b)
    decreases |a|
  {
    if a == [] {
      assert a + b == b;
    } else {
      assert (a + b)[1..] == a[1..] + b;
      CostsAppend(g, q, max, d, a[1..], b);
    }
  }

  lemma {:induction false} CostsShort(g: Graph, q: Search, max: nat, d: nat, ts: seq<Trail>)
    requires forall t :: t in ts ==> |t| >= d
    ensures Costs(g, q, max, 0, Short(max, ts)) <= Costs(g, q, max, d, ts)
    decreases |ts|
  {
    if ts != [] {
      CostsShort(g, q, max, d, ts[1..]);
      if |ts[0]| < max {
        assert Short(max, ts)[1..] == Short(max, ts[1..]);
      }
    }
  }

  lemma QueueShrinks(g: Graph, q: Search, max: nat, queue: seq<Trail>)
    requires queue != []
    ensures Costs(g, q, max, 0, queue[1..] + Short(max, Extend(g, q, queue[0]))) < Costs(g, q, max, 0, queue)
            || |queue[0]| >= max
    ensures Costs(g, q, max, 0, queue[1..]) < Costs(g, q, max, 0, queue)
  {
    var t := queue[0];
    if |t| < max {
      CostsAppend(g, q, max, 0, queue[1..], Short(max, Extend(g, q, t)));
      CostsShort(g, q, max, |t| + 1, Extend(g, q, t));
    }
  }

  // Everything enumerated from a queue, in the order it is enumerated.
  ghost function Bfs(g: Graph, q: Search, max: nat, queue: seq<Trail>): seq<Trail>
    decreases Costs(g, q, max, 0, queue)
  {
    if queue == [] then []
    else
      QueueShrinks(g, q, max, queue);
      if |queue[0]| >= max then Bfs(g, q, max, queue[1..])
      else
        var ext := Extend(g, q, queue[0]);
        ext + Bfs(g, q, max, queue[1..] + Short(max, ext))
  }

  ghost function AllTrails(g: Graph, q: Search, max: nat): seq<Trail> {
    Bfs(g, q, max, [[]])
  }

  // --- How often each trail is enumerated ---

  function Times(a: nat, b: nat): nat { a * b }

  lemma TimesDistributes(a: nat, b: nat, c: nat)
    ensures Times(a, b + c) == Times(a, b) + Times(a, c)
  {
  }

  lemma TimesOne(a: nat)
    ensures Times(a, 1) == a && Times(a, 0) == 0
  {
  }

  // How often one expansion step produces `t`.
  ghost function StepCount(g: Graph, q: Search, t: Trail): nat
    requires t != []
  {
    multiset(Extend(g, q, Init(t)))[t]
  }

  // The number of ways `t` arises from `p` by one or more extensions.
  ghost function Ways(g: Graph, q: Search, max: nat, p: Trail, t: Trail): nat
    decreases |t|
  {
    if |t| <= |p| || |t| > max then 0
    else
      Times(StepCount(g, q, t), if Init(t) == p then 1 else Ways(g, q, max, p, Init(t)))
  }

  ghost function WaysFrom(g: Graph, q: Search, max: nat, ts: seq<Trail>, t: Trail): nat
    decreases |ts|
  {
    if ts == [] then 0 else Ways(g, q, max, ts[0], t) + WaysFrom(g, q, max, ts[1..], t)
  }

  lemma {:induction false} WaysFromAppend(g: Graph, q: Search, max: nat, a: seq<Trail>, b: seq<Trail>, t: Trail)
    ensures WaysFrom(g, q, max, a + b, t) == WaysFrom(g, q, max, a, t) + WaysFrom(g, q, max, b, t)
    decreases |a|
  {
    if a == [] {
      assert a + b == b;
    } else {
      assert (a + b)[1..] == a[1..] + b;
      WaysFromAppend(g, q, max, a[1..], b, t);
    }
  }

  // Trails already of length `max` lead nowhere, so dropping them loses nothing.
  lemma {:induction false} WaysFromShort(g: Graph, q: Search, max: nat, ts: seq<Trail>, t: Trail)
    ensures WaysFrom(g, q, max, Short(max, ts), t) == WaysFrom(g, q, max, ts, t)
    decreases |ts|
  {
    if ts != [] {
      WaysFromShort(g, q, max, ts[1..], t);
      if |ts[0]| < max {
        assert Short(max, ts)[1..] == Short(max, ts[1..]);
      }
    }
  }

  // All of `ts` have length d: the ways from `ts` to `t` are the extensions of
  // the ways to the prefix, the prefix itself counting once per occurrence.
  lemma {:induction false} WaysFromStep(g: Graph, q: Search, max: nat, ts: seq<Trail>, d: nat, t: Trail)
    requires forall x :: x in ts ==> |x| == d
    requires d < |t| <= max
    ensures WaysFrom(g, q, max, ts, t) ==
            Times(StepCount(g, q, t), multiset(ts)[Init(t)] + WaysFrom(g, q, max, ts, Init(t)))
    decreases |ts|
  {
    hide StepCount;
    var c, p := StepCount(g, q, t), Init(t);
    if ts == [] {
      TimesOne(c);
    } else {
      hide Times;
      WaysFromStep(g, q, max, ts[1..], d, t);
      assert multiset(ts)[p] == (if p == ts[0] then 1 else 0) + multiset(ts[1..])[p] by {
        assert ts == [ts[0]] + ts[1..];
      }
      var head: nat := if p == ts[0] then 1 else Ways(g, q, max, ts[0], p);
      assert Ways(g, q, max, ts[0], t) == Times(c, head);
      TimesDistributes(c, head, multiset(ts[1..])[p] + WaysFrom(g, q, max, ts[1..], p));
    }
  }

  lemma ExtendCountAt(g: Graph, q: Search, p: Trail, t: Trail)
    ensures multiset(Extend(g, q, p))[t] == if t != [] && Init(t) == p then StepCount(g, q, t) else 0
    ensures forall x :: x in Extend(g, q, p) ==> |x| == |p| + 1
  {
    assert t in Extend(g, q, p) ==> t != [] && Init(t) == p;
  }

  lemma {:induction false} WaysUnfold(g: Graph, q: Search, max: nat, p: Trail, t: Trail)
    requires |p| < max
    ensures Ways(g, q, max, p, t) ==
            (if |t| <= max then multiset(Extend(g, q, p))[t] else 0) + WaysFrom(g, q, max, Extend(g, q, p), t)
    decreases |t|
  {
    hide Times, StepCount, Extend;
    var ext := Extend(g, q, p);
    ExtendCountAt(g, q, p, t);
    if |t| <= |p| + 1 || |t| > max {
      WaysFromNone(g, q, max, ext, t);
      if |t| == |p| + 1 {
        TimesOne(StepCount(g, q, t));
      }
    } else {
      WaysUnfold(g, q, max, p, Init(t));
      WaysFromStep(g, q, max, ext, |p| + 1, t);
    }
  }

  lemma {:induction false} WaysFromNone(g: Graph, q: Search, max: nat, ts: seq<Trail>, t: Trail)
    requires forall x :: x in ts ==> |t| <= |x| || |t| > max
    ensures WaysFrom(g, q, max, ts, t) == 0
    decreases |ts|
  {
    if ts != [] {
      WaysFromNone(g, q, max, ts[1..], t);
    }
  }

  lemma {:induction false} BfsCounts(g: Graph, q: Search, max: nat, queue: seq<Trail>, t: Trail)
    ensures multiset(Bfs(g, q, max, queue))[t] == WaysFrom(g, q, max, queue, t)
    decreases Costs(g, q, max, 0, queue)
  {
    if queue != [] {
      QueueShrinks(g, q, max, queue);
      var p := queue[0];
      if |p| >= max {
        BfsCounts(g, q, max, queue[1..], t);
      } else {
        var ext := Extend(g, q, p);
        BfsCounts(g, q, max, queue[1..] + Short(max, ext), t);
        WaysFromAppend(g, q, max, queue[1..], Short(max, ext), t);
        WaysFromShort(g, q, max, ext, t);
        WaysUnfold(g, q, max, p, t);
        assert |t| > max ==> t !in ext;
        MultisetConcat(ext, Bfs(g, q, max, queue[1..] + Short(max, ext)), t);
      }
    }
  }

  predicate SelfLoop(g: Graph, e: EdgeId) {
    e in g.edges && g.edges[e].src == g.edges[e].dst
  }

  // A self-loop sits in both the outgoing and the incoming list of its node,
  // so an undirected search takes it twice.
  function Multiplicity(g: Graph, q: Search, t: Trail): (m: nat)
    ensures m >= 1
    ensures !q.dir.Undirected? ==> m == 1
    ensures (forall e :: e in t ==> !SelfLoop(g, e)) ==> m == 1
  {
    if t == [] then 1
    else Times(LoopFactor(g, q, Last(t)), Multiplicity(g, q, Init(t)))
  }

  function LoopFactor(g: Graph, q: Search, e: EdgeId): nat {
    if q.dir.Undirected? && SelfLoop(g, e) then 2 else 1
  }

  lemma CandidateCount(g: Graph, dir: Direction, n: NodeId, e: EdgeId)
    ensures multiset(Candidates(g, dir, n))[e] ==
            if e in g.edges && Leaves(dir, g.edges[e], n)
            then (if dir.Undirected? && SelfLoop(g, e) then 2 else 1) else 0
  {
    NoDupMultiset(OutIds(g, n), e);
    NoDupMultiset(InIds(g, n), e);
    assert e in OutIds(g, n) <==> e in OutSet(g.edges, n);
    assert e in InIds(g, n) <==> e in InSet(g.edges, n);
  }

  lemma {:induction false} ExtendOverCount(g: Graph, q: Search, t: Trail, ids: seq<EdgeId>, e: EdgeId)
    ensures multiset(ExtendOver(g, q, t, ids))[t + [e]] == if Extends(g, q, t, e) then multiset(ids)[e] else 0
    decreases |ids|
  {
    if ids != [] {
      assert ids == [ids[0]] + ids[1..];
      ExtendOverCount(g, q, t, ids[1..], e);
      if ids[0] != e {
        assert (t + [ids[0]])[|t|] != (t + [e])[|t|];
      }
    }
  }

  // From the start, a trail of admissible length is reached in as many ways as
  // its multiplicity says, and anything else in none.
  lemma {:induction false} WaysFromStart(g: Graph, q: Search, max: nat, t: Trail)
    ensures Ways(g, q, max, [], t) ==
            if 1 <= |t| <= max && IsTrail(g, q, t) then Multiplicity(g, q, t) else 0
    decreases |t|
  {
    if 1 <= |t| <= max {
      hide StepCount, Times, LoopFactor;
      var p, e := Init(t), Last(t);
      WaysFromStart(g, q, max, p);
      StepCountIs(g, q, t);
      TimesOne(LoopFactor(g, q, e));
      TimesZero(Multiplicity(g, q, p));
      TimesOne(StepCount(g, q, t));
      TrailStep(g, q, t);
    }
  }

  lemma TrailStep(g: Graph, q: Search, t: Trail)
    requires t != []
    ensures IsTrail(g, q, t) <==> IsTrail(g, q, Init(t)) && StepOk(g, q, Init(t), Last(t)) && Last(t) !in Init(t)
    ensures IsTrail(g, q, [])
  {
    NoDupAppend(Init(t), Last(t));
    assert t == Init(t) + [Last(t)];
  }

  lemma StepCountIs(g: Graph, q: Search, t: Trail)
    requires t != []
    ensures StepCount(g, q, t) ==
            if StepOk(g, q, Init(t), Last(t)) && Last(t) !in Init(t) then LoopFactor(g, q, Last(t)) else 0
  {
    var p, e := Init(t), Last(t);
    assert t == p + [e];
    ExtendOverCount(g, q, p, Candidates(g, q.dir, EndOf(g, q, p)), e);
    CandidateCount(g, q.dir, EndOf(g, q, p), e);
  }

  lemma TimesZero(a: nat)
    ensures Times(0, a) == 0
  {
  }

  // Variable-length expansion enumerates exactly the relationship-distinct,
  // type- and direction-respecting walks of length 1..max: each once when the
  // pattern is directed, and twice per undirected self-loop otherwise.
  lemma AllTrailsExact(g: Graph, q: Search, max: nat, t: Trail)
    ensures multiset(AllTrails(g, q, max))[t] ==
            if 1 <= |t| <= max && IsTrail(g, q, t) then Multiplicity(g, q, t) else 0
  {
    BfsCounts(g, q, max, [[]], t);
    assert WaysFrom(g, q, max, [[]], t) == Ways(g, q, max, [], t) + WaysFrom(g, q, max, [], t);
    WaysFromStart(g, q, max, t);
  }

  lemma DirectedTrailsDistinct(g: Graph, q: Search, max: nat)
    requires !q.dir.Undirected?
    ensures NoDup(AllTrails(g, q, max))
    ensures forall t :: t in AllTrails(g, q, max) <==> 1 <= |t| <= max && IsTrail(g, q, t)
  {
    var ts := AllTrails(g, q, max);
    forall t ensures t in ts <==> 1 <= |t| <= max && IsTrail(g, q, t) {
      AllTrailsExact(g, q, max, t);
    }
    forall t | t in ts ensures multiset(ts)[t] == 1 {
      AllTrailsExact(g, q, max, t);
    }
    MultisetNoDup(ts);
  }
}
