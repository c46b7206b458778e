// `execute_shortest_path`: level-by-level search over a parent-pointer arena
// with a map of the depth at which each node was first reached.

module ShortestPathSearch {
  import opened GraphTypes
  import opened Sequences
  import opened AbstractGraph
  import opened MemoryStorages
  import opened Trails
  import opened ShortestWalks
  import V = VarLengthExpand

  // One arena entry: the entry it extends, the edge taken, the node reached.
  datatype Hop = Hop(parent: Option<nat>, edge: EdgeId, node: NodeId)

  datatype Front = Front(node: NodeId, at: Option<nat>)

  datatype Level = Level(hops: seq<Hop>, next: seq<Front>, visited: map<NodeId, nat>, found: seq<nat>)

  datatype Status = Continue | Stop | Full

  ghost predicate HopsOk(g: Graph, q: Search, hops: seq<Hop>, chains: seq<Trail>) {
    && |hops| == |chains|
    && forall i :: 0 <= i < |hops| ==>
         && (hops[i].parent.Some? ==> hops[i].parent.value < i)
         && chains[i] == V.TrailAt(chains, hops[i].parent) + [hops[i].edge]
         && hops[i].node == EndOf(g, q, chains[i])
  }

  ghost predicate FrontOk(g: Graph, q: Search, chains: seq<Trail>, front: seq<Front>, ws: seq<Trail>) {
    && |front| == |ws|
    && forall i :: 0 <= i < |front| ==>
         && (front[i].at.Some? ==> front[i].at.value < |chains|)
         && ws[i] == V.TrailAt(chains, front[i].at)
         && front[i].node == EndOf(g, q, ws[i])
  }

  ghost predicate AllShortestOf(g: Graph, q: Search, ws: seq<Trail>, k: nat) {
    forall w :: w in ws ==> IsShortest(g, q, w) && |w| == k
  }

  ghost predicate EndsAt(g: Graph, q: Search, ws: seq<Trail>, v: NodeId) {
    exists i :: 0 <= i < |ws| && EndOf(g, q, ws[i]) == v
  }

  // While level `depth` is built: a node is in the map exactly when it is
  // within `depth - 1` steps or already reached by the new level, and the
  // recorded depth tells the two apart.
  ghost predicate VisitedOk(g: Graph, q: Search, depth: nat, visited: map<NodeId, nat>, ws: seq<Trail>)
    requires depth >= 1
  {
    forall v :: (v in visited <==> Near(g, q, v, depth - 1) || EndsAt(g, q, ws, v))
             && (v in visited ==> visited[v] <= depth && (visited[v] < depth <==> Near(g, q, v, depth - 1)))
  }

  // Every step from `w` leads to a node in the map.
  ghost predicate Covered(g: Graph, q: Search, w: Trail, visited: map<NodeId, nat>) {
    forall e :: StepOk(g, q, w, e) ==> Far(q.dir, g.edges[e], EndOf(g, q, w)) in visited
  }

  ghost function FoundTrails(chains: seq<Trail>, found: seq<nat>): seq<Trail> {
    seq(|found|, i requires 0 <= i < |found| => V.TrailAt(chains, Some(found[i])))
  }

  ghost predicate FoundOk(g: Graph, q: Search, target: NodeId, min: nat, all: bool, depth: nat,
                          chains: seq<Trail>, found: seq<nat>, ws: seq<Trail>)
  {
    && (forall i :: 0 <= i < |found| ==> found[i] < |chains|)
    && (all ==> FoundTrails(chains, found) == if depth >= min then Arriving(g, q, target, ws) else [])
    && (!all ==> found == [] && (depth >= min ==> !EndsAt(g, q, ws, target)))
  }

  ghost predicate SizeOk(g: Graph, q: Search, all: bool, base: nat, level: Level, ws: seq<Trail>) {
    && |level.hops| <= V.ARENA_CAPACITY
    && (all ==> |level.hops| == base + |ws|)
    && (!all ==> |level.visited| == |level.hops| + 1 && level.visited.Keys <= g.nodes.Keys + {q.start})
  }

  ghost predicate LevelOk(g: Graph, q: Search, target: NodeId, min: nat, all: bool, depth: nat, base: nat,
                          level: Level, chains: seq<Trail>, ws: seq<Trail>)
    requires depth >= 1
  {
    && HopsOk(g, q, level.hops, chains)
    && FrontOk(g, q, chains, level.next, ws)
    && AllShortestOf(g, q, ws, depth)
    && VisitedOk(g, q, depth, level.visited, ws)
    && FoundOk(g, q, target, min, all, depth, chains, level.found, ws)
    && SizeOk(g, q, all, base, level, ws)
  }

  // The single path shortestPath stops with.
  ghost predicate StoppedOk(g: Graph, q: Search, target: NodeId, min: nat, depth: nat, level: Level, chains: seq<Trail>) {
    && HopsOk(g, q, level.hops, chains)
    && |level.found| == 1 && level.found[0] < |chains|
    && var w := chains[level.found[0]];
       IsShortest(g, q, w) && |w| == depth && depth >= min && EndOf(g, q, w) == target
  }

  function Pushed(level: Level, at: Option<nat>, e: EdgeId, node: NodeId, depth: nat, hit: bool): Level {
    Level(level.hops + [Hop(at, e, node)],
          level.next + [Front(node, Some(|level.hops|))],
          if node in level.visited then level.visited else level.visited[node := depth],
          if hit then level.found + [|level.hops|] else level.found)
  }

  // --- One push keeps each part of the level invariant ---

  lemma HopsPush(g: Graph, q: Search, hops: seq<Hop>, chains: seq<Trail>, at: Option<nat>, e: EdgeId, node: NodeId)
    requires HopsOk(g, q, hops, chains) && (at.Some? ==> at.value < |chains|)
    requires node == EndOf(g, q, V.TrailAt(chains, at) + [e])
    ensures HopsOk(g, q, hops + [Hop(at, e, node)], chains + [V.TrailAt(chains, at) + [e]])
  {
  }

  lemma FrontPush(g: Graph, q: Search, chains: seq<Trail>, front: seq<Front>, ws: seq<Trail>, x: Trail, node: NodeId)
    requires FrontOk(g, q, chains, front, ws) && node == EndOf(g, q, x)
    ensures FrontOk(g, q, chains + [x], front + [Front(node, Some(|chains|))], ws + [x])
    ensures FrontOk(g, q, chains + [x], front, ws)
  {
  }

  lemma EndsAtSnoc(g: Graph, q: Search, ws: seq<Trail>, x: Trail, v: NodeId)
    ensures EndsAt(g, q, ws + [x], v) <==> EndsAt(g, q, ws, v) || EndOf(g, q, x) == v
  {
    var ys := ws + [x];
    assert ys[|ws|] == x;
    if EndsAt(g, q, ws, v) {
      var i :| 0 <= i < |ws| && EndOf(g, q, ws[i]) == v;
      assert ys[i] == ws[i];
    }
  }

  lemma VisitedPush(g: Graph, q: Search, depth: nat, visited: map<NodeId, nat>, ws: seq<Trail>, x: Trail)
    requires depth >= 1 && VisitedOk(g, q, depth, visited, ws)
    requires !Near(g, q, EndOf(g, q, x), depth - 1)
    ensures var node := EndOf(g, q, x);
            VisitedOk(g, q, depth, if node in visited then visited else visited[node := depth], ws + [x])
  {
    hide Near, EndsAt;
    forall v ensures EndsAt(g, q, ws + [x], v) <==> EndsAt(g, q, ws, v) || EndOf(g, q, x) == v {
      EndsAtSnoc(g, q, ws, x, v);
    }
  }

  lemma FoundTrailsSnoc(chains: seq<Trail>, found: seq<nat>, x: Trail)
    requires forall i :: 0 <= i < |found| ==> found[i] < |chains|
    ensures FoundTrails(chains + [x], found) == FoundTrails(chains, found)
    ensures FoundTrails(chains + [x], found + [|chains|]) == FoundTrails(chains, found) + [x]
  {
  }

  lemma FoundPush(g: Graph, q: Search, target: NodeId, min: nat, all: bool, depth: nat,
                  chains: seq<Trail>, found: seq<nat>, ws: seq<Trail>, x: Trail)
    requires FoundOk(g, q, target, min, all, depth, chains, found, ws)
    ensures var hit := EndOf(g, q, x) == target && depth >= min;
            (all || !hit) ==>
              FoundOk(g, q, target, min, all, depth, chains + [x], if hit then found + [|chains|] else found, ws + [x])
  {
    hide EndOf, FoundTrails;
    assert Init(ws + [x]) == ws && Last(ws + [x]) == x;
    EndsAtSnoc(g, q, ws, x, target);
    FoundTrailsSnoc(chains, found, x);
  }

  lemma NewWalk(g: Graph, q: Search, w: Trail, e: EdgeId)
    requires IsShortest(g, q, w) && StepOk(g, q, w, e) && Advances(g, q, w, e)
    ensures IsShortest(g, q, w + [e])
    ensures EndOf(g, q, w + [e]) == Far(q.dir, g.edges[e], EndOf(g, q, w))
    ensures !Near(g, q, EndOf(g, q, w + [e]), |w|)
  {
    StepEnd(g, q, w, e);
    assert Init(w + [e]) == w && Last(w + [e]) == e;
    ShortestStep(g, q, w + [e]);
  }

  lemma LevelPush(g: Graph, q: Search, target: NodeId, min: nat, all: bool, depth: nat, base: nat,
                  level: Level, chains: seq<Trail>, ws: seq<Trail>, at: Option<nat>, e: EdgeId)
    requires depth >= 1 && LevelOk(g, q, target, min, all, depth, base, level, chains, ws)
    requires GraphOk(g) && |level.hops| < V.ARENA_CAPACITY
    requires at.Some? ==> at.value < |chains|
    requires var w := V.TrailAt(chains, at);
             IsShortest(g, q, w) && |w| + 1 == depth && StepOk(g, q, w, e) && Advances(g, q, w, e)
    requires !all ==> Far(q.dir, g.edges[e], EndOf(g, q, V.TrailAt(chains, at))) !in level.visited
    ensures var w := V.TrailAt(chains, at);
            var node := Far(q.dir, g.edges[e], EndOf(g, q, w));
            var hit := node == target && depth >= min;
            var after := Pushed(level, at, e, node, depth, hit);
            && (all || !hit ==> LevelOk(g, q, target, min, all, depth, base, after, chains + [w + [e]], ws + [w + [e]]))
            && (!all && hit ==> StoppedOk(g, q, target, min, depth, after, chains + [w + [e]]))
            && node in after.visited
  {
    hide HopsOk, FrontOk, VisitedOk, FoundOk, Near, EndOf, Arriving, EndsAt, IsShortest, Advances, IsWalk;
    var w := V.TrailAt(chains, at);
    var x := w + [e];
    var node := Far(q.dir, g.edges[e], EndOf(g, q, w));
    SizesAgree(g, q, level.hops, chains);
    NewWalk(g, q, w, e);
    HopsPush(g, q, level.hops, chains, at, e, node);
    FrontPush(g, q, chains, level.next, ws, x, node);
    VisitedPush(g, q, depth, level.visited, ws, x);
    FoundPush(g, q, target, min, all, depth, chains, level.found, ws, x);
    var hit := node == target && depth >= min;
    if !all && hit {
      FoundIsEmpty(g, q, target, min, depth, chains, level.found, ws);
    }
  }

  lemma SizesAgree(g: Graph, q: Search, hops: seq<Hop>, chains: seq<Trail>)
    requires HopsOk(g, q, hops, chains)
    ensures |hops| == |chains|
  {
  }

  lemma FoundIsEmpty(g: Graph, q: Search, target: NodeId, min: nat, depth: nat,
                     chains: seq<Trail>, found: seq<nat>, ws: seq<Trail>)
    requires FoundOk(g, q, target, min, false, depth, chains, found, ws)
    ensures found == []
  {
  }

  // A step the search passes over leads to a node already in the map, and one
  // that is not new to this level unless a single path is wanted.
  lemma Skipped(g: Graph, q: Search, depth: nat, visited: map<NodeId, nat>, ws: seq<Trail>, w: Trail, e: EdgeId, all: bool)
    requires depth >= 1 && VisitedOk(g, q, depth, visited, ws)
    requires IsShortest(g, q, w) && |w| + 1 == depth && StepOk(g, q, w, e)
    requires var node := Far(q.dir, g.edges[e], EndOf(g, q, w));
             e in w || (node in visited && (all ==> visited[node] != depth))
    ensures Far(q.dir, g.edges[e], EndOf(g, q, w)) in visited
    ensures all ==> !Advances(g, q, w, e)
  {
    if e in w {
      RepeatedEdgeIsNear(g, q, w, e);
    }
  }

  lemma Taken(g: Graph, q: Search, depth: nat, visited: map<NodeId, nat>, ws: seq<Trail>, w: Trail, e: EdgeId, all: bool)
    requires depth >= 1 && VisitedOk(g, q, depth, visited, ws)
    requires |w| + 1 == depth && StepOk(g, q, w, e)
    requires var node := Far(q.dir, g.edges[e], EndOf(g, q, w));
             node in visited ==> all && visited[node] == depth
    ensures Advances(g, q, w, e)
  {
  }

  method PathChainContains(hops: seq<Hop>, from: Option<nat>, edge: EdgeId,
                           ghost g: Graph, ghost q: Search, ghost chains: seq<Trail>)
    returns (b: bool)
    requires HopsOk(g, q, hops, chains) && (from.Some? ==> from.value < |hops|)
    ensures b <==> edge in V.TrailAt(chains, from)
  {
    var cur: Option<nat> := from;
    while cur.Some?
      invariant cur.Some? ==> cur.value < |hops|
      invariant edge in V.TrailAt(chains, from) <==> edge in V.TrailAt(chains, cur)
      decreases if cur.Some? then cur.value + 1 else 0
    {
      var hop := hops[cur.value];
      if hop.edge == edge {
        return true;
      }
      cur := hop.parent;
    }
    return false;
  }

  // One candidate edge of one frontier entry.
  method ExploreEdge(storage: MemoryStorage, q: Search, target: NodeId, min: nat, all: bool, depth: nat, ghost base: nat,
                     level0: Level, ghost chains0: seq<Trail>, ghost ws0: seq<Trail>,
                     cur: NodeId, at: Option<nat>, eid: EdgeId)
    returns (status: Status, level: Level, ghost chains: seq<Trail>, ghost ws: seq<Trail>)
    requires storage.Valid() && depth >= 1
    requires LevelOk(storage.View(), q, target, min, all, depth, base, level0, chains0, ws0)
    requires at.Some? ==> at.value < |chains0|
    requires var w := V.TrailAt(chains0, at);
             IsShortest(storage.View(), q, w) && |w| + 1 == depth && cur == EndOf(storage.View(), q, w)
    requires eid in Candidates(storage.View(), q.dir, cur)
    ensures var g, w := storage.View(), V.TrailAt(chains0, at);
            && V.TrailAt(chains, at) == w
            && (status.Continue? ==>
                 && LevelOk(g, q, target, min, all, depth, base, level, chains, ws)
                 && chains0 <= chains
                 && (all ==> ws == ws0 + if Advances(g, q, w, eid) then [w + [eid]] else [])
                 && level0.visited.Keys <= level.visited.Keys
                 && (StepOk(g, q, w, eid) ==> Far(q.dir, g.edges[eid], cur) in level.visited))
            && (status.Stop? ==> !all && StoppedOk(g, q, target, min, depth, level, chains))
            && (status.Full? ==>
                 && |level0.hops| >= V.ARENA_CAPACITY
                 && Advances(g, q, w, eid)
                 && (!all ==> |g.nodes| > V.ARENA_CAPACITY))
  {
    hide MemoryStorage.Valid, HopsOk, FrontOk, AllShortestOf, VisitedOk, FoundOk, IsShortest, Near, EndOf, StoppedOk;
    ghost var g, w := storage.View(), V.TrailAt(chains0, at);
    status, level, chains, ws := Continue, level0, chains0, ws0;
    assert ws0 + [] == ws0;
    SizesAgree(g, q, level0.hops, chains0);
    var onPath := PathChainContains(level0.hops, at, eid, g, q, chains0);
    var edge := storage.edges[eid];
    if !TypeOk(q.relTypes, edge.relType) {
      return;
    }
    if onPath {
      Skipped(g, q, depth, level0.visited, ws0, w, eid, all);
      Skipped(g, q, depth, level0.visited, ws0, w, eid, true);
      return;
    }
    var node := Far(q.dir, edge, cur);
    if node in level0.visited && (if all then level0.visited[node] != depth else true) {
      Skipped(g, q, depth, level0.visited, ws0, w, eid, all);
      return;
    }
    Taken(g, q, depth, level0.visited, ws0, w, eid, all);
    if |level0.hops| >= V.ARENA_CAPACITY {
      status := Full;
      StorageIsOk(storage);
      TooManyNodes(g, q, all, base, level0, ws0, node);
      return;
    }
    StorageIsOk(storage);
    LevelPush(g, q, target, min, all, depth, base, level0, chains0, ws0, at, eid);
    var hit := node == target && depth >= min;
    level := Pushed(level0, at, eid, node, depth, hit);
    chains, ws := chains0 + [w + [eid]], ws0 + [w + [eid]];
    if hit && !all {
      status := Stop;
    }
  }

  // The candidate edges of one frontier entry.
  method ExploreEntry(storage: MemoryStorage, q: Search, target: NodeId, min: nat, all: bool, depth: nat, ghost base: nat,
                      level0: Level, ghost chains0: seq<Trail>, ghost ws0: seq<Trail>, cur: NodeId, at: Option<nat>)
    returns (status: Status, level: Level, ghost chains: seq<Trail>, ghost ws: seq<Trail>)
    requires storage.Valid() && depth >= 1
    requires LevelOk(storage.View(), q, target, min, all, depth, base, level0, chains0, ws0)
    requires at.Some? ==> at.value < |chains0|
    requires var w := V.TrailAt(chains0, at);
             IsShortest(storage.View(), q, w) && |w| + 1 == depth && cur == EndOf(storage.View(), q, w)
    ensures var g, w := storage.View(), V.TrailAt(chains0, at);
            && (status.Continue? ==>
                 && LevelOk(g, q, target, min, all, depth, base, level, chains, ws)
                 && chains0 <= chains
                 && (all ==> ws == ws0 + Advance(g, q, w))
                 && level0.visited.Keys <= level.visited.Keys
                 && Covered(g, q, w, level.visited))
            && (status.Stop? ==> !all && StoppedOk(g, q, target, min, depth, level, chains))
            && (status.Full? ==>
                 && (all ==> base + |ws0 + Advance(g, q, w)| > V.ARENA_CAPACITY)
                 && (!all ==> |g.nodes| > V.ARENA_CAPACITY))
  {
    hide MemoryStorage.Valid, LevelOk, IsShortest, Near, EndOf, StoppedOk, StepOk, Advances, AdvanceOver, Advance, Covered, Candidates;
    ghost var g, w := storage.View(), V.TrailAt(chains0, at);
    status, level, chains, ws := Continue, level0, chains0, ws0;
    var candidates := V.CandidateIds(storage, q.dir, cur);
    ghost var done: seq<Trail> := [];
    AdvanceBegins(g, q, w, candidates, ws0);
    for j := 0 to |candidates|
      invariant status.Continue? && LevelOk(g, q, target, min, all, depth, base, level, chains, ws)
      invariant chains0 <= chains && V.TrailAt(chains, at) == w
      invariant all ==> ws == ws0 + done
      invariant done + AdvanceOver(g, q, w, candidates[j..]) == Advance(g, q, w)
      invariant level0.visited.Keys <= level.visited.Keys
      invariant forall i :: 0 <= i < j && StepOk(g, q, w, candidates[i]) ==>
                  candidates[i] in g.edges && Far(q.dir, g.edges[candidates[i]], cur) in level.visited
    {
      var eid := candidates[j];
      AdvanceStep(g, q, w, done, candidates, j);
      ghost var level1, ws1 := level, ws;
      status, level, chains, ws :=
        ExploreEdge(storage, q, target, min, all, depth, base, level, chains, ws, cur, at, eid);
      if status.Full? {
        LevelSize(g, q, target, min, all, depth, base, level1, chains, ws1);
        assert all ==> |ws1| == |ws0| + |done| && |done| < |Advance(g, q, w)|;
      }
      if !status.Continue? {
        return;
      }
      ghost var more := if Advances(g, q, w, eid) then [w + [eid]] else [];
      assert (ws0 + done) + more == ws0 + (done + more);
      done := done + more;
    }
    AllStepsSeen(g, q, w, candidates, level.visited);
  }

  lemma AdvanceBegins(g: Graph, q: Search, w: Trail, ids: seq<EdgeId>, ws: seq<Trail>)
    requires ids == Candidates(g, q.dir, EndOf(g, q, w))
    ensures [] + AdvanceOver(g, q, w, ids[0..]) == Advance(g, q, w) && AdvanceOver(g, q, w, ids[|ids|..]) == []
    ensures ws + [] == ws && forall s: seq<Trail> :: s + [] == s
  {
    assert ids[0..] == ids;
  }

  lemma AdvanceStep(g: Graph, q: Search, w: Trail, done: seq<Trail>, ids: seq<EdgeId>, j: nat)
    requires j < |ids| && done + AdvanceOver(g, q, w, ids[j..]) == Advance(g, q, w)
    ensures (done + if Advances(g, q, w, ids[j]) then [w + [ids[j]]] else [])
            + AdvanceOver(g, q, w, ids[j + 1..]) == Advance(g, q, w)
    ensures Advances(g, q, w, ids[j]) ==> |done| < |Advance(g, q, w)|
  {
    hide Advance, Advances;
    var rest := AdvanceOver(g, q, w, ids[j + 1..]);
    assert ids[j..][0] == ids[j] && ids[j..][1..] == ids[j + 1..];
    assert Advances(g, q, w, ids[j]) ==> done + ([w + [ids[j]]] + rest) == (done + [w + [ids[j]]]) + rest;
    assert done + [] == done;
  }

  lemma LevelSize(g: Graph, q: Search, target: NodeId, min: nat, all: bool, depth: nat, base: nat,
                  level: Level, chains: seq<Trail>, ws: seq<Trail>)
    requires depth >= 1 && |level.hops| >= V.ARENA_CAPACITY
    requires exists c :: LevelOk(g, q, target, min, all, depth, base, level, c, ws)
    ensures all ==> base + |ws| == V.ARENA_CAPACITY
  {
  }

  lemma AllStepsSeen(g: Graph, q: Search, w: Trail, ids: seq<EdgeId>, visited: map<NodeId, nat>)
    requires ids == Candidates(g, q.dir, EndOf(g, q, w))
    requires forall i :: 0 <= i < |ids| && StepOk(g, q, w, ids[i]) ==>
               ids[i] in g.edges && Far(q.dir, g.edges[ids[i]], EndOf(g, q, w)) in visited
    ensures Covered(g, q, w, visited)
  {
    forall e | StepOk(g, q, w, e) ensures Far(q.dir, g.edges[e], EndOf(g, q, w)) in visited {
      assert e in ids;
      var i :| 0 <= i < |ids| && ids[i] == e;
    }
  }

  // The frontier of one depth: the walks `fs` of length depth - 1.
  ghost predicate FrontierOk(g: Graph, q: Search, all: bool, depth: nat, chains: seq<Trail>, front: seq<Front>, fs: seq<Trail>)
    requires depth >= 1
  {
    && FrontOk(g, q, chains, front, fs)
    && AllShortestOf(g, q, fs, depth - 1)
    && (all ==> fs == ShortLevel(g, q, depth - 1))
    && forall v :: AtDistance(g, q, v, depth - 1) ==> EndsAt(g, q, fs, v)
  }

  method ExploreLevel(storage: MemoryStorage, q: Search, target: NodeId, min: nat, all: bool, depth: nat, ghost base: nat,
                      frontier: seq<Front>, level0: Level, ghost chains0: seq<Trail>, ghost fs: seq<Trail>)
    returns (status: Status, level: Level, ghost chains: seq<Trail>, ghost ws: seq<Trail>)
    requires storage.Valid() && depth >= 1
    requires LevelOk(storage.View(), q, target, min, all, depth, base, level0, chains0, [])
    requires FrontierOk(storage.View(), q, all, depth, chains0, frontier, fs)
    ensures var g := storage.View();
            && (status.Continue? ==>
                 && LevelOk(g, q, target, min, all, depth, base, level, chains, ws)
                 && chains0 <= chains
                 && (all ==> ws == ShortLevel(g, q, depth))
                 && forall i :: 0 <= i < |fs| ==> Covered(g, q, fs[i], level.visited))
            && (status.Stop? ==> !all && StoppedOk(g, q, target, min, depth, level, chains))
            && (status.Full? ==>
                 && (all ==> base + |ShortLevel(g, q, depth)| > V.ARENA_CAPACITY)
                 && (!all ==> |g.nodes| > V.ARENA_CAPACITY))
  {
    hide MemoryStorage.Valid, LevelOk, Covered, IsShortest, Near, EndOf, StoppedOk, AtDistance, EndsAt, Advance, AdvanceAll;
    ghost var g := storage.View();
    status, level, chains, ws := Continue, level0, chains0, [];
    AdvanceAllBegins(g, q, fs);
    NextLevel(g, q, depth);
    for i := 0 to |frontier|
      invariant status.Continue? && LevelOk(g, q, target, min, all, depth, base, level, chains, ws)
      invariant chains0 <= chains
      invariant all ==> ws == AdvanceAll(g, q, fs[..i])
      invariant forall k :: 0 <= k < i ==> Covered(g, q, fs[k], level.visited)
    {
      var Front(cur, at) := frontier[i];
      assert fs[i] == V.TrailAt(chains0, at) && fs[i] == V.TrailAt(chains, at) && fs[i] in fs;
      AdvanceAllStep(g, q, fs, i);
      ghost var level1 := level;
      status, level, chains, ws :=
        ExploreEntry(storage, q, target, min, all, depth, base, level, chains, ws, cur, at);
      if !status.Continue? {
        return;
      }
      forall k | 0 <= k < i + 1 ensures Covered(g, q, fs[k], level.visited) {
        if k < i {
          CoveredGrows(g, q, fs[k], level1.visited, level.visited);
        }
      }
    }
    assert fs[..|fs|] == fs;
  }

  lemma NextLevel(g: Graph, q: Search, depth: nat)
    requires depth >= 1
    ensures ShortLevel(g, q, depth) == AdvanceAll(g, q, ShortLevel(g, q, depth - 1))
  {
  }

  lemma CoveredGrows(g: Graph, q: Search, w: Trail, before: map<NodeId, nat>, after: map<NodeId, nat>)
    requires Covered(g, q, w, before) && before.Keys <= after.Keys
    ensures Covered(g, q, w, after)
  {
  }

  lemma AdvanceAllBegins(g: Graph, q: Search, fs: seq<Trail>)
    ensures AdvanceAll(g, q, fs[..0]) == []
  {
  }

  lemma AdvanceAllStep(g: Graph, q: Search, fs: seq<Trail>, i: nat)
    requires i < |fs|
    ensures AdvanceAll(g, q, fs[..i + 1]) == AdvanceAll(g, q, fs[..i]) + Advance(g, q, fs[i])
    ensures |AdvanceAll(g, q, fs[..i + 1])| <= |AdvanceAll(g, q, fs)|
  {
    assert Init(fs[..i + 1]) == fs[..i] && Last(fs[..i + 1]) == fs[i];
    AdvanceAllPrefix(g, q, fs, i + 1);
  }

  lemma {:induction false} AdvanceAllPrefix(g: Graph, q: Search, fs: seq<Trail>, i: nat)
    requires i <= |fs|
    ensures |AdvanceAll(g, q, fs[..i])| <= |AdvanceAll(g, q, fs)|
    decreases |fs| - i
  {
    if i == |fs| {
      assert fs[..i] == fs;
    } else {
      assert Init(fs[..i + 1]) == fs[..i];
      AdvanceAllPrefix(g, q, fs, i + 1);
    }
  }

  lemma TooManyNodes(g: Graph, q: Search, all: bool, base: nat, level: Level, ws: seq<Trail>, node: NodeId)
    requires SizeOk(g, q, all, base, level, ws) && |level.hops| >= V.ARENA_CAPACITY
    requires !all ==> node !in level.visited && node in g.nodes
    ensures !all ==> |g.nodes| > V.ARENA_CAPACITY
  {
    if !all {
      SubsetSize(level.visited.Keys + {node}, g.nodes.Keys + {q.start});
    }
  }

  lemma SubsetSize(a: set<NodeId>, b: set<NodeId>)
    requires a <= b
    ensures |a| <= |b|
  {
    if a != {} {
      var x :| x in a;
      SubsetSize(a - {x}, b - {x});
    }
  }

  // --- From one level to the next ---

  // Every node at distance `depth` was reached by the finished level.
  lemma LevelReaches(g: Graph, q: Search, depth: nat, visited: map<NodeId, nat>, fs: seq<Trail>, ws: seq<Trail>, v: NodeId)
    requires depth >= 1 && VisitedOk(g, q, depth, visited, ws)
    requires forall i :: 0 <= i < |fs| ==> Covered(g, q, fs[i], visited)
    requires forall u :: AtDistance(g, q, u, depth - 1) ==> EndsAt(g, q, fs, u)
    requires AtDistance(g, q, v, depth)
    ensures EndsAt(g, q, ws, v)
  {
    var u, w := LastStep(g, q, v, depth - 1);
    assert EndsAt(g, q, fs, u);
    var i :| 0 <= i < |fs| && EndOf(g, q, fs[i]) == u;
    assert StepOk(g, q, fs[i], Last(w));
    assert v in visited;
  }

  lemma NextVisited(g: Graph, q: Search, depth: nat, visited: map<NodeId, nat>, fs: seq<Trail>, ws: seq<Trail>)
    requires depth >= 1 && VisitedOk(g, q, depth, visited, ws) && AllShortestOf(g, q, ws, depth)
    requires forall i :: 0 <= i < |fs| ==> Covered(g, q, fs[i], visited)
    requires forall u :: AtDistance(g, q, u, depth - 1) ==> EndsAt(g, q, fs, u)
    ensures VisitedOk(g, q, depth + 1, visited, [])
  {
    forall v ensures v in visited <==> Near(g, q, v, depth) {
      if v in visited {
        if Near(g, q, v, depth - 1) {
          NearMonotone(g, q, v, depth - 1, depth);
        } else {
          var i :| 0 <= i < |ws| && EndOf(g, q, ws[i]) == v;
          assert ws[i] in ws;
          NearWitness(g, q, ws[i], depth);
        }
      } else if Near(g, q, v, depth) {
        assert AtDistance(g, q, v, depth);
        LevelReaches(g, q, depth, visited, fs, ws, v);
      }
    }
  }

  lemma NextLevelOk(g: Graph, q: Search, target: NodeId, min: nat, all: bool, depth: nat, base: nat, base2: nat,
                    frontier: seq<Front>, level: Level, chains: seq<Trail>, fs: seq<Trail>, ws: seq<Trail>)
    requires depth >= 1 && LevelOk(g, q, target, min, all, depth, base, level, chains, ws)
    requires FrontierOk(g, q, all, depth, chains, frontier, fs)
    requires all ==> ws == ShortLevel(g, q, depth) && base2 == base + |ws|
    requires forall i :: 0 <= i < |fs| ==> Covered(g, q, fs[i], level.visited)
    requires level.found == []
    ensures LevelOk(g, q, target, min, all, depth + 1, base2, level.(next := []), chains, [])
    ensures FrontierOk(g, q, all, depth + 1, chains, level.next, ws)
    ensures depth >= min ==> !AtDistance(g, q, target, depth)
  {
    NextVisited(g, q, depth, level.visited, fs, ws);
    forall v | AtDistance(g, q, v, depth) ensures EndsAt(g, q, ws, v) {
      LevelReaches(g, q, depth, level.visited, fs, ws, v);
    }
    assert all && depth >= min ==> |Arriving(g, q, target, ws)| == |level.found|;
    assert forall i :: 0 <= i < |ws| && EndOf(g, q, ws[i]) == target ==> ws[i] in Arriving(g, q, target, ws);
  }

  // --- The search for one pair of nodes ---

  ghost predicate HasPath(g: Graph, q: Search, target: NodeId, min: nat, max: nat) {
    exists k: nat :: min <= k <= max && AtDistance(g, q, target, k)
  }

  // What the search finds: with `all`, the level of the target's distance
  // restricted to the target; otherwise one shortest walk to it; nothing when
  // the distance is outside min..max.
  ghost predicate FindsShortest(g: Graph, q: Search, target: NodeId, min: nat, max: nat, all: bool, ws: seq<Trail>) {
    && (!HasPath(g, q, target, min, max) ==> ws == [])
    && forall k: nat :: min <= k <= max && AtDistance(g, q, target, k) ==>
         if all then ws == Arriving(g, q, target, ShortLevel(g, q, k))
         else |ws| == 1 && IsShortest(g, q, ws[0]) && |ws[0]| == k && EndOf(g, q, ws[0]) == target
  }

  ghost function LevelsSize(g: Graph, q: Search, k: nat): nat {
    if k == 0 then 0 else LevelsSize(g, q, k - 1) + |ShortLevel(g, q, k)|
  }

  lemma FoundAt(g: Graph, q: Search, target: NodeId, min: nat, max: nat, all: bool, depth: nat, ws: seq<Trail>)
    requires min <= depth <= max && AtDistance(g, q, target, depth)
    requires if all then ws == Arriving(g, q, target, ShortLevel(g, q, depth))
             else |ws| == 1 && IsShortest(g, q, ws[0]) && |ws[0]| == depth && EndOf(g, q, ws[0]) == target
    ensures FindsShortest(g, q, target, min, max, all, ws)
  {
    forall k: nat | min <= k <= max && AtDistance(g, q, target, k) ensures k == depth {
      DistanceUnique(g, q, target, k, depth);
    }
  }

  lemma SearchBegins(g: Graph, q: Search, target: NodeId, min: nat, all: bool)
    requires q.start != target
    ensures LevelOk(g, q, target, min, all, 1, 0, Level([], [], map[q.start := 0], []), [], [])
    ensures FrontierOk(g, q, all, 1, [], [Front(q.start, None)], [[]])
    ensures !AtDistance(g, q, target, 0)
  {
    var w: Trail := [];
    NearWitness(g, q, w, 0);
    assert forall v :: Near(g, q, v, 0) <==> v == q.start;
    assert EndOf(g, q, [[]][0]) == q.start;
    assert IsShortest(g, q, []);
    assert FoundTrails([], []) == [];
  }

  method FindShortest(storage: MemoryStorage, q: Search, target: NodeId, min: nat, max: Option<nat>, all: bool)
    returns (full: bool, hops: seq<Hop>, found: seq<nat>, ghost chains: seq<Trail>)
    requires storage.Valid() && q.start != target
    ensures var g, m := storage.View(), V.EffectiveMax(max);
            && (full ==> (if all then LevelsSize(g, q, m) else |g.nodes|) > V.ARENA_CAPACITY)
            && (!full ==>
                 && HopsOk(g, q, hops, chains)
                 && (forall i :: 0 <= i < |found| ==> found[i] < |chains|)
                 && FindsShortest(g, q, target, min, m, all, FoundTrails(chains, found)))
  {
    hide MemoryStorage.Valid, LevelOk, FrontierOk, AtDistance, Covered, StoppedOk, FindsShortest, HopsOk, LevelsSize, ShortLevel;
    ghost var g := storage.View();
    var unbounded, effectiveMax := max.None?, V.EffectiveMax(max);
    var frontier := [Front(q.start, None)];
    var level := Level([], [], map[q.start := 0], []);
    ghost var fs: seq<Trail> := [[]];
    chains := [];
    SearchBegins(g, q, target, min, all);
    LevelsSizeZero(g, q);
    var depth := 1;
    while depth <= effectiveMax
      invariant depth >= 1
      invariant LevelOk(g, q, target, min, all, depth, LevelsSize(g, q, depth - 1), level, chains, [])
      invariant FrontierOk(g, q, all, depth, chains, frontier, fs)
      invariant level.next == [] && level.found == []
      invariant forall k: nat :: min <= k < depth ==> !AtDistance(g, q, target, k)
      decreases effectiveMax - depth
    {
      if unbounded && depth > V.DEFAULT_MAX_HOPS {
        // The source returns its limit error here; the loop bound rules it out.
        assert false;
      }
      var status;
      ghost var ws, chains1;
      ghost var chains0 := chains;
      status, level, chains1, ws :=
        ExploreLevel(storage, q, target, min, all, depth, LevelsSize(g, q, depth - 1), frontier, level, chains, fs);
      if status.Full? {
        LevelsSizeStep(g, q, depth);
        LevelsSizeMonotone(g, q, depth, effectiveMax);
        full, hops, found := true, [], [];
        return;
      }
      chains := chains1;
      if status.Stop? {
        StoppedIsFound(g, q, target, min, effectiveMax, depth, level, chains);
        full, hops, found := false, level.hops, level.found;
        return;
      }
      LevelFound(g, q, target, min, effectiveMax, all, depth, LevelsSize(g, q, depth - 1), level, chains, ws);
      if level.found != [] {
        full, hops, found := false, level.hops, level.found;
        return;
      }
      FrontierStable(g, q, all, depth, chains0, chains, frontier, fs);
      LevelsSizeStep(g, q, depth);
      NextLevelOk(g, q, target, min, all, depth, LevelsSize(g, q, depth - 1), LevelsSize(g, q, depth), frontier, level, chains, fs, ws);
      if level.next == [] {
        NothingLeft(g, q, target, min, effectiveMax, all, depth, chains, level.next, ws);
        full, hops, found := false, level.hops, [];
        assert FoundTrails(chains, found) == [];
        return;
      }
      frontier, fs, level := level.next, ws, level.(next := []);
      depth := depth + 1;
    }
    LevelParts(g, q, target, min, all, depth, LevelsSize(g, q, depth - 1), level, chains, []);
    NoPathIsFound(g, q, target, min, effectiveMax, all);
    full, hops, found := false, level.hops, [];
    assert FoundTrails(chains, found) == [];
  }

  lemma LevelParts(g: Graph, q: Search, target: NodeId, min: nat, all: bool, depth: nat, base: nat,
                   level: Level, chains: seq<Trail>, ws: seq<Trail>)
    requires depth >= 1 && LevelOk(g, q, target, min, all, depth, base, level, chains, ws)
    ensures HopsOk(g, q, level.hops, chains)
  {
  }

  lemma LevelsSizeZero(g: Graph, q: Search)
    ensures LevelsSize(g, q, 0) == 0
  {
  }

  lemma LevelsSizeStep(g: Graph, q: Search, k: nat)
    requires k >= 1
    ensures LevelsSize(g, q, k) == LevelsSize(g, q, k - 1) + |ShortLevel(g, q, k)|
  {
  }

  lemma {:induction false} LevelsSizeMonotone(g: Graph, q: Search, j: nat, k: nat)
    requires j <= k
    ensures LevelsSize(g, q, j) <= LevelsSize(g, q, k)
    decreases k
  {
    hide ShortLevel;
    if j < k {
      LevelsSizeMonotone(g, q, j, k - 1);
    }
  }

  lemma NoPathIsFound(g: Graph, q: Search, target: NodeId, min: nat, max: nat, all: bool)
    requires forall k: nat :: min <= k <= max ==> !AtDistance(g, q, target, k)
    ensures FindsShortest(g, q, target, min, max, all, [])
  {
  }

  lemma StoppedIsFound(g: Graph, q: Search, target: NodeId, min: nat, max: nat, depth: nat, level: Level, chains: seq<Trail>)
    requires StoppedOk(g, q, target, min, depth, level, chains) && depth <= max
    ensures HopsOk(g, q, level.hops, chains) && forall i :: 0 <= i < |level.found| ==> level.found[i] < |chains|
    ensures FindsShortest(g, q, target, min, max, false, FoundTrails(chains, level.found))
  {
    hide HopsOk, IsShortest, FindsShortest, Near, AtDistance;
    var w := chains[level.found[0]];
    ShortestDistance(g, q, w);
    assert FoundTrails(chains, level.found) == [w];
    FoundAt(g, q, target, min, max, false, depth, [w]);
  }

  lemma LevelFound(g: Graph, q: Search, target: NodeId, min: nat, max: nat, all: bool, depth: nat, base: nat,
                   level: Level, chains: seq<Trail>, ws: seq<Trail>)
    requires depth >= 1 && LevelOk(g, q, target, min, all, depth, base, level, chains, ws)
    requires depth <= max && (all ==> ws == ShortLevel(g, q, depth))
    ensures HopsOk(g, q, level.hops, chains) && forall i :: 0 <= i < |level.found| ==> level.found[i] < |chains|
    ensures level.found != [] ==> FindsShortest(g, q, target, min, max, all, FoundTrails(chains, level.found))
  {
    if level.found != [] {
      var found := FoundTrails(chains, level.found);
      assert found[0] in found;
      assert found[0] in ws && EndOf(g, q, found[0]) == target;
      ShortestDistance(g, q, found[0]);
      FoundAt(g, q, target, min, max, all, depth, found);
    }
  }

  lemma FrontierStable(g: Graph, q: Search, all: bool, depth: nat, chains0: seq<Trail>, chains: seq<Trail>,
                       frontier: seq<Front>, fs: seq<Trail>)
    requires depth >= 1 && chains0 <= chains && FrontierOk(g, q, all, depth, chains0, frontier, fs)
    ensures FrontierOk(g, q, all, depth, chains, frontier, fs)
  {
  }

  lemma NothingLeft(g: Graph, q: Search, target: NodeId, min: nat, max: nat, all: bool, depth: nat,
                    chains: seq<Trail>, next: seq<Front>, ws: seq<Trail>)
    requires depth >= 1 && next == [] && FrontierOk(g, q, all, depth + 1, chains, next, ws)
    requires forall k: nat :: min <= k < depth ==> !AtDistance(g, q, target, k)
    ensures FindsShortest(g, q, target, min, max, all, [])
  {
    forall u ensures !AtDistance(g, q, u, depth) {
      assert AtDistance(g, q, u, depth + 1 - 1) ==> EndsAt(g, q, ws, u);
    }
    forall k: nat | min <= k <= max ensures !AtDistance(g, q, target, k) {
      if k >= depth {
        NothingBeyond(g, q, depth, target, k);
      }
    }
    NoPathIsFound(g, q, target, min, max, all);
  }

  // --- From arena chains to path values ---

  ghost function PathRels(g: Graph, q: Search, w: Trail): seq<Edge> {
    if w == [] then [] else PathRels(g, q, Init(w)) + LastRel(g, q, w)
  }

  ghost function PathNodes(g: Graph, q: Search, w: Trail): seq<Node> {
    if w == [] then [] else PathNodes(g, q, Init(w)) + LastNode(g, q, w)
  }

  // A step is kept when both its edge and the node it reaches are stored.
  ghost predicate StepStored(g: Graph, q: Search, w: Trail)
    requires w != []
  {
    Last(w) in g.edges && EndOf(g, q, w) in g.nodes
  }

  ghost function LastRel(g: Graph, q: Search, w: Trail): seq<Edge>
    requires w != []
  {
    if StepStored(g, q, w) then [g.edges[Last(w)]] else []
  }

  ghost function LastNode(g: Graph, q: Search, w: Trail): seq<Node>
    requires w != []
  {
    if StepStored(g, q, w) then [g.nodes[EndOf(g, q, w)]] else []
  }

  function RelList(rels: seq<Edge>): seq<Value> {
    seq(|rels|, i requires 0 <= i < |rels| => RelVal(rels[i]))
  }

  ghost function PathRow(g: Graph, q: Search, rec: Record, relVar: Option<string>, pathVar: string, w: Trail): Record {
    var first := if q.start in g.nodes then [g.nodes[q.start]] else [];
    var row := rec[pathVar := PathVal(first + PathNodes(g, q, w), PathRels(g, q, w))];
    if relVar.Some? then row[relVar.value := ListVal(RelList(PathRels(g, q, w)))] else row
  }

  ghost function PathRows(g: Graph, q: Search, rec: Record, relVar: Option<string>, pathVar: string,
                          ws: seq<Trail>): seq<Record>
  {
    seq(|ws|, i requires 0 <= i < |ws| => PathRow(g, q, rec, relVar, pathVar, ws[i]))
  }

  // The value built for a walk is that walk: it starts at the start node,
  // consecutive relationships connect its nodes, and nothing is dropped.
  lemma {:induction false} PathSpellsWalk(g: Graph, q: Search, w: Trail)
    requires GraphOk(g) && IsWalk(g, q, w)
    ensures |PathRels(g, q, w)| == |w| && |PathNodes(g, q, w)| == |w|
    ensures forall i :: 0 <= i < |w| ==>
              && w[i] in g.edges && PathRels(g, q, w)[i] == g.edges[w[i]]
              && PathNodes(g, q, w)[i].id == EndOf(g, q, w[..i + 1])
              && EndOf(g, q, w[..i + 1]) == Far(q.dir, g.edges[w[i]], EndOf(g, q, w[..i]))
              && Leaves(q.dir, g.edges[w[i]], EndOf(g, q, w[..i]))
    decreases |w|
  {
    assert forall n :: n in g.nodes ==> g.nodes[n].id == n;
    hide Leaves, Far, GraphOk;
    if w != [] {
      var p := Init(w);
      PathSpellsWalk(g, q, p);
      V.WalkEndsLive(g, q, w);
      forall i | 0 <= i < |w|
        ensures w[i] in g.edges && PathRels(g, q, w)[i] == g.edges[w[i]]
        ensures PathNodes(g, q, w)[i].id == EndOf(g, q, w[..i + 1])
        ensures EndOf(g, q, w[..i + 1]) == Far(q.dir, g.edges[w[i]], EndOf(g, q, w[..i]))
        ensures Leaves(q.dir, g.edges[w[i]], EndOf(g, q, w[..i]))
      {
        if i < |p| {
          assert p[..i] == w[..i] && p[..i + 1] == w[..i + 1] && p[i] == w[i];
        } else {
          assert w[..i] == p && w[..i + 1] == w;
        }
      }
    }
  }

  // --- What the rows show ---

  // `w` leads from the start to the target.
  ghost predicate LeadsTo(g: Graph, q: Search, target: NodeId, w: Trail) {
    exists nodes: seq<NodeId> :: Visits(g, q, w, nodes) && Last(nodes) == target
  }

  // It does so, and nothing shorter does.
  ghost predicate IsShortestTo(g: Graph, q: Search, target: NodeId, w: Trail) {
    LeadsTo(g, q, target, w) && forall x: Trail :: LeadsTo(g, q, target, x) ==> |w| <= |x|
  }

  // The walks asked for: all the shortest ones, once each, or one of them, and
  // none when they are shorter than `min` or longer than `max`.
  ghost predicate AsksFor(g: Graph, q: Search, target: NodeId, min: nat, max: nat, all: bool, ws: seq<Trail>) {
    && (forall w :: w in ws ==> IsShortestTo(g, q, target, w) && min <= |w| <= max)
    && (forall w: Trail :: IsShortestTo(g, q, target, w) && min <= |w| <= max ==> if all then w in ws else ws != [])
    && (if all then NoDup(ws) else |ws| <= 1)
  }

  // The nodes passed, the start first, and the relationships between them.
  ghost predicate IsPathOf(g: Graph, w: Trail, nodes: seq<NodeId>, v: Value)
    requires |nodes| == |w| + 1
  {
    && v.PathVal? && |v.nodes| == |w| + 1 && |v.rels| == |w|
    && (forall k :: 0 <= k <= |w| ==> nodes[k] in g.nodes && v.nodes[k] == g.nodes[nodes[k]])
    && (forall k :: 0 <= k < |w| ==> w[k] in g.edges && v.rels[k] == g.edges[w[k]])
  }

  ghost predicate ShowsPath(g: Graph, q: Search, rec: Record, relVar: Option<string>, pathVar: string, w: Trail, row: Record) {
    && (relVar != Some(pathVar) ==>
          pathVar in row && exists nodes: seq<NodeId> :: Visits(g, q, w, nodes) && IsPathOf(g, w, nodes, row[pathVar]))
    && (relVar.Some? ==> relVar.value in row && V.ListsTrail(g, w, row[relVar.value]))
    && SameBut(rec, row, {pathVar} + if relVar.Some? then {relVar.value} else {})
  }

  // The rows of one input row: one for each walk asked for. A record may hold
  // a node that is no longer stored; it has no path to itself.
  ghost predicate ShortestAnswer(g: Graph, rec: Record, srcVar: string, dstVar: string, relVar: Option<string>, pathVar: string,
                                 relTypes: seq<string>, dir: Direction, min: nat, max: nat, all: bool, rows: seq<Record>)
  {
    if !(srcVar in rec && rec[srcVar].NodeVal? && dstVar in rec && rec[dstVar].NodeVal?) then rows == []
    else
      var q, target := Search(dir, relTypes, rec[srcVar].node.id), rec[dstVar].node.id;
      if q.start == target && target !in g.nodes then rows == []
      else exists ws: seq<Trail> ::
             && AsksFor(g, q, target, min, max, all, ws) && |rows| == |ws|
             && forall i :: 0 <= i < |ws| ==> ShowsPath(g, q, rec, relVar, pathVar, ws[i], rows[i])
  }

  lemma LeadsToMeans(g: Graph, q: Search, target: NodeId, w: Trail)
    ensures LeadsTo(g, q, target, w) <==> IsWalk(g, q, w) && EndOf(g, q, w) == target
  {
    var nodes := WalkMeans(g, q, w);
  }

  lemma NotNear(g: Graph, q: Search, target: NodeId, k: nat, x: Trail)
    requires !Near(g, q, target, k) && IsWalk(g, q, x) && EndOf(g, q, x) == target
    ensures |x| > k
  {
  }

  lemma ShortestToMeans(g: Graph, q: Search, target: NodeId, w: Trail)
    ensures IsShortestTo(g, q, target, w) <==> IsShortest(g, q, w) && EndOf(g, q, w) == target
  {
    hide LeadsTo, IsWalk, EndOf;
    forall x: Trail ensures LeadsTo(g, q, target, x) <==> IsWalk(g, q, x) && EndOf(g, q, x) == target {
      LeadsToMeans(g, q, target, x);
    }
    if LeadsTo(g, q, target, w) && w != [] {
      if Near(g, q, target, |w| - 1) {
        var x: Trail :| IsWalk(g, q, x) && |x| <= |w| - 1 && EndOf(g, q, x) == target;
        assert LeadsTo(g, q, target, x);
      } else {
        forall x: Trail | LeadsTo(g, q, target, x) ensures |w| <= |x| {
          NotNear(g, q, target, |w| - 1, x);
        }
      }
    }
  }

  lemma FoundIsAsked(g: Graph, q: Search, target: NodeId, min: nat, max: nat, all: bool, ws: seq<Trail>)
    requires FindsShortest(g, q, target, min, max, all, ws)
    ensures AsksFor(g, q, target, min, max, all, ws)
  {
    hide IsShortest, IsShortestTo, AtDistance, EndOf, Arriving, ShortLevel, IsWalk;
    forall w: Trail
      ensures IsShortestTo(g, q, target, w) <==> IsShortest(g, q, w) && EndOf(g, q, w) == target
      ensures IsShortestTo(g, q, target, w) ==> AtDistance(g, q, target, |w|)
    {
      ShortestToMeans(g, q, target, w);
      if IsShortest(g, q, w) { ShortestDistance(g, q, w); }
    }
    if HasPath(g, q, target, min, max) {
      var k: nat :| min <= k <= max && AtDistance(g, q, target, k);
      forall w: Trail ensures IsShortestTo(g, q, target, w) <==> IsWalk(g, q, w) && |w| == k && EndOf(g, q, w) == target {
        AskedAtDistance(g, q, target, k, w);
      }
      if all {
        AllShortestExact(g, q, target, k);
      }
    }
  }

  lemma AskedAtDistance(g: Graph, q: Search, target: NodeId, k: nat, w: Trail)
    requires AtDistance(g, q, target, k)
    ensures IsShortestTo(g, q, target, w) <==> IsWalk(g, q, w) && |w| == k && EndOf(g, q, w) == target
  {
    ShortestToMeans(g, q, target, w);
    if IsShortestTo(g, q, target, w) {
      ShortestDistance(g, q, w);
      DistanceUnique(g, q, target, |w|, k);
    }
  }

  // The nodes passed are where the beginnings of the walk end.
  lemma {:induction false} PassedAt(g: Graph, q: Search, w: Trail, nodes: seq<NodeId>, i: nat)
    requires Visits(g, q, w, nodes) && i <= |w|
    ensures EndOf(g, q, w[..i]) == nodes[i]
  {
    var prefix := WalkMeans(g, q, w[..i]);
    assert Visits(g, q, w[..i], nodes[..i + 1]);
  }

  lemma {:induction false} PathNodesLive(g: Graph, q: Search, w: Trail)
    requires GraphOk(g)
    ensures forall i :: 0 <= i < |PathNodes(g, q, w)| ==>
              var n := PathNodes(g, q, w)[i]; n.id in g.nodes && g.nodes[n.id] == n
    decreases |w|
  {
    if w != [] {
      PathNodesLive(g, q, Init(w));
    }
  }

  // The nodes and relationships read for a walk are the ones it passes.
  lemma ReadIsPath(g: Graph, q: Search, w: Trail, nodes: seq<NodeId>)
    requires GraphOk(g) && IsWalk(g, q, w) && q.start in g.nodes && Visits(g, q, w, nodes)
    ensures |nodes| == |w| + 1
    ensures IsPathOf(g, w, nodes, PathVal([g.nodes[q.start]] + PathNodes(g, q, w), PathRels(g, q, w)))
  {
    hide EndOf, PathRels, PathNodes, Far, Leaves, Joins;
    PathSpellsWalk(g, q, w);
    PathNodesLive(g, q, w);
    var passed := PathNodes(g, q, w);
    var all := [g.nodes[q.start]] + passed;
    hide GraphOk, IsWalk;
    forall k | 0 <= k <= |w| ensures nodes[k] in g.nodes && all[k] == g.nodes[nodes[k]] {
      PassedAt(g, q, w, nodes, k);
      if k > 0 {
        var i := k - 1;
        assert passed[i].id == EndOf(g, q, w[..i + 1]) && all[k] == passed[i];
      }
    }
  }

  lemma PathRowKeeps(g: Graph, q: Search, rec: Record, relVar: Option<string>, pathVar: string, w: Trail)
    ensures var row := PathRow(g, q, rec, relVar, pathVar, w);
            && (relVar != Some(pathVar) ==>
                  pathVar in row && row[pathVar] == PathVal((if q.start in g.nodes then [g.nodes[q.start]] else []) + PathNodes(g, q, w), PathRels(g, q, w)))
            && (relVar.Some? ==> relVar.value in row && row[relVar.value] == ListVal(RelList(PathRels(g, q, w))))
            && SameBut(rec, row, {pathVar} + if relVar.Some? then {relVar.value} else {})
  {
    hide PathNodes, PathRels, RelList;
  }

  lemma RowShowsPath(g: Graph, q: Search, rec: Record, relVar: Option<string>, pathVar: string, w: Trail)
    requires GraphOk(g) && IsWalk(g, q, w) && q.start in g.nodes
    ensures ShowsPath(g, q, rec, relVar, pathVar, w, PathRow(g, q, rec, relVar, pathVar, w))
  {
    PathRowKeeps(g, q, rec, relVar, pathVar, w);
    PathSpellsWalk(g, q, w);
    hide PathRow, EndOf, PathRels, PathNodes, Far, Leaves, Joins, IsPathOf, GraphOk, IsWalk, SameBut;
    var nodes := WalkMeans(g, q, w);
    ReadIsPath(g, q, w, nodes);
  }

  lemma StartsAt(g: Graph, q: Search)
    ensures EndOf(g, q, []) == q.start
    ensures forall w: Trail :: w[..0] == []
  {
  }

  lemma {:induction false} WalkStartsLive(g: Graph, q: Search, w: Trail)
    requires GraphOk(g) && IsWalk(g, q, w) && w != []
    ensures q.start in g.nodes
    decreases |w|
  {
    if |w| > 1 {
      WalkStartsLive(g, q, Init(w));
    }
  }

  lemma PairRowsMean(g: Graph, rec: Record, srcVar: string, dstVar: string, relVar: Option<string>, pathVar: string,
                     relTypes: seq<string>, dir: Direction, min: nat, max: nat, all: bool, rows: seq<Record>)
    requires GraphOk(g) && PairRows(g, rec, srcVar, dstVar, relVar, pathVar, relTypes, dir, min, max, all, rows)
    ensures ShortestAnswer(g, rec, srcVar, dstVar, relVar, pathVar, relTypes, dir, min, max, all, rows)
  {
    hide FindsShortest, AsksFor, ShowsPath, PathRow, IsShortestTo, IsWalk, EndOf, GraphOk;
    if srcVar in rec && rec[srcVar].NodeVal? && dstVar in rec && rec[dstVar].NodeVal? {
      var q, target := Search(dir, relTypes, rec[srcVar].node.id), rec[dstVar].node.id;
      if !(q.start == target && target !in g.nodes) {
        var ws: seq<Trail> :| FindsShortest(g, q, target, min, max, all, ws) && rows == PathRows(g, q, rec, relVar, pathVar, ws);
        FoundIsAsked(g, q, target, min, max, all, ws);
        forall i | 0 <= i < |ws| ensures ShowsPath(g, q, rec, relVar, pathVar, ws[i], rows[i]) {
          assert ws[i] in ws;
          AskedIsWalk(g, q, target, min, max, all, ws, ws[i]);
          StartsAt(g, q);
          if ws[i] != [] { WalkStartsLive(g, q, ws[i]); }
          RowShowsPath(g, q, rec, relVar, pathVar, ws[i]);
        }
      }
    }
  }

  lemma AskedIsWalk(g: Graph, q: Search, target: NodeId, min: nat, max: nat, all: bool, ws: seq<Trail>, w: Trail)
    requires AsksFor(g, q, target, min, max, all, ws) && w in ws
    ensures IsWalk(g, q, w) && EndOf(g, q, w) == target
  {
    LeadsToMeans(g, q, target, w);
  }

  lemma PathStep(g: Graph, q: Search, hops: seq<Hop>, chains: seq<Trail>, at: nat)
    requires HopsOk(g, q, hops, chains) && at < |hops|
    ensures hops[at].parent.Some? ==> hops[at].parent.value < at
    ensures var w, p := chains[at], V.TrailAt(chains, hops[at].parent);
            && w != [] && Last(w) == hops[at].edge && EndOf(g, q, w) == hops[at].node
            && PathRels(g, q, w) == PathRels(g, q, p) + LastRel(g, q, w)
            && PathNodes(g, q, w) == PathNodes(g, q, p) + LastNode(g, q, w)
  {
    assert Init(chains[at]) == V.TrailAt(chains, hops[at].parent);
  }

  // Walks the chain back from `from`, then reverses both lists.
  method ReadChain(storage: MemoryStorage, hops: seq<Hop>, from: nat, ghost q: Search, ghost chains: seq<Trail>)
    returns (rels: seq<Edge>, nodes: seq<Node>)
    requires HopsOk(storage.View(), q, hops, chains) && from < |hops|
    ensures rels == PathRels(storage.View(), q, chains[from])
    ensures nodes == PathNodes(storage.View(), q, chains[from])
  {
    hide HopsOk, PathRels, PathNodes, EndOf, Reverse;
    ghost var g := storage.View();
    SizesAgree(g, q, hops, chains);
    ReadBegins(g, q);
    var relsBack: seq<Edge>, nodesBack: seq<Node> := [], [];
    var cur: Option<nat> := Some(from);
    while cur.Some?
      invariant cur.Some? ==> cur.value < |hops|
      invariant PathRels(g, q, V.TrailAt(chains, cur)) + Reverse(relsBack) == PathRels(g, q, chains[from])
      invariant PathNodes(g, q, V.TrailAt(chains, cur)) + Reverse(nodesBack) == PathNodes(g, q, chains[from])
      decreases if cur.Some? then cur.value + 1 else 0
    {
      PathStep(g, q, hops, chains, cur.value);
      var hop := hops[cur.value];
      var edge, node := storage.GetEdge(hop.edge), storage.GetNode(hop.node);
      if edge.Some? && node.Some? {
        ReverseAppend(relsBack, edge.value);
        ReverseAppend(nodesBack, node.value);
        relsBack, nodesBack := relsBack + [edge.value], nodesBack + [node.value];
      }
      cur := hop.parent;
    }
    rels, nodes := Reverse(relsBack), Reverse(nodesBack);
  }

  lemma ReadBegins(g: Graph, q: Search)
    ensures PathRels(g, q, []) == [] && PathNodes(g, q, []) == []
    ensures Reverse<Edge>([]) == [] && Reverse<Node>([]) == []
  {
  }

  // The rows of one input row.
  ghost predicate PairRows(g: Graph, rec: Record, srcVar: string, dstVar: string, relVar: Option<string>, pathVar: string,
                           relTypes: seq<string>, dir: Direction, min: nat, max: nat, all: bool, rows: seq<Record>)
  {
    if !(srcVar in rec && rec[srcVar].NodeVal? && dstVar in rec && rec[dstVar].NodeVal?) then rows == []
    else
      var q, target := Search(dir, relTypes, rec[srcVar].node.id), rec[dstVar].node.id;
      if q.start == target && target !in g.nodes then rows == []
      else exists ws: seq<Trail> ::
             FindsShortest(g, q, target, min, max, all, ws) && rows == PathRows(g, q, rec, relVar, pathVar, ws)
  }

  // The zero-length path, found exactly when the pattern admits length 0.
  lemma ZeroLength(g: Graph, q: Search, min: nat, max: nat, all: bool)
    ensures FindsShortest(g, q, q.start, min, max, all, if min == 0 then [[]] else [])
  {
    var w: Trail := [];
    NearWitness(g, q, w, 0);
    assert AtDistance(g, q, q.start, 0);
    if min == 0 {
      assert IsShortest(g, q, w);
      assert Init([w]) == [] && Last([w]) == w;
      assert Arriving(g, q, q.start, []) == [];
      assert Arriving(g, q, q.start, [w]) == [w];
      FoundAt(g, q, q.start, min, max, all, 0, [w]);
    } else {
      forall k: nat | min <= k <= max ensures !AtDistance(g, q, q.start, k) {
        if AtDistance(g, q, q.start, k) {
          DistanceUnique(g, q, q.start, 0, k);
        }
      }
      NoPathIsFound(g, q, q.start, min, max, all);
    }
  }

  // The only way a search can fail: more shortest walks, or for a single path
  // more nodes, than the arena can index.
  ghost predicate ArenaExceeded(g: Graph, rec: Record, srcVar: string, relTypes: seq<string>, dir: Direction,
                                max: nat, all: bool)
  {
    && srcVar in rec && rec[srcVar].NodeVal?
    && var q := Search(dir, relTypes, rec[srcVar].node.id);
       (if all then LevelsSize(g, q, max) else |g.nodes|) > V.ARENA_CAPACITY
  }

  lemma ZeroRow(g: Graph, q: Search, rec: Record, relVar: Option<string>, pathVar: string)
    requires q.start in g.nodes
    ensures var row := rec[pathVar := PathVal([g.nodes[q.start]], [])];
            PathRows(g, q, rec, relVar, pathVar, [[]])
            == [if relVar.Some? then row[relVar.value := ListVal([])] else row]
  {
    assert [g.nodes[q.start]] + [] == [g.nodes[q.start]];
    assert RelList([]) == [];
  }

  lemma PathRowsStep(g: Graph, q: Search, rec: Record, relVar: Option<string>, pathVar: string, ws: seq<Trail>, i: nat)
    requires i < |ws|
    ensures PathRows(g, q, rec, relVar, pathVar, ws[..i + 1])
         == PathRows(g, q, rec, relVar, pathVar, ws[..i]) + [PathRow(g, q, rec, relVar, pathVar, ws[i])]
  {
  }

  method ShortestRows(storage: MemoryStorage, rec: Record, srcVar: string, dstVar: string, relVar: Option<string>,
                      pathVar: string, relTypes: seq<string>, dir: Direction, min: nat, max: Option<nat>, all: bool)
    returns (full: bool, rows: seq<Record>)
    requires storage.Valid()
    ensures !full ==>
              PairRows(storage.View(), rec, srcVar, dstVar, relVar, pathVar, relTypes, dir, min, V.EffectiveMax(max), all, rows)
    ensures full ==> ArenaExceeded(storage.View(), rec, srcVar, relTypes, dir, V.EffectiveMax(max), all)
    ensures !full ==>
              ShortestAnswer(storage.View(), rec, srcVar, dstVar, relVar, pathVar, relTypes, dir, min,
                             if max.Some? then max.value else 100, all, rows)
  {
    hide MemoryStorage.Valid, FindsShortest, HopsOk, PathRels, PathNodes, EndOf, ShortestAnswer;
    StorageIsOk(storage);
    forall rs | PairRows(storage.View(), rec, srcVar, dstVar, relVar, pathVar, relTypes, dir, min, V.EffectiveMax(max), all, rs)
      ensures ShortestAnswer(storage.View(), rec, srcVar, dstVar, relVar, pathVar, relTypes, dir, min, V.EffectiveMax(max), all, rs)
    {
      PairRowsMean(storage.View(), rec, srcVar, dstVar, relVar, pathVar, relTypes, dir, min, V.EffectiveMax(max), all, rs);
    }
    full, rows := false, [];
    if !(srcVar in rec && rec[srcVar].NodeVal? && dstVar in rec && rec[dstVar].NodeVal?) {
      return;
    }
    var q, target := Search(dir, relTypes, rec[srcVar].node.id), rec[dstVar].node.id;
    ghost var g := storage.View();
    if q.start == target {
      ZeroLength(g, q, min, V.EffectiveMax(max), all);
      ReadBegins(g, q);
      if min == 0 {
        var node := storage.GetNode(q.start);
        if node.Some? {
          var row := rec[pathVar := PathVal([node.value], [])];
          if relVar.Some? {
            row := row[relVar.value := ListVal([])];
          }
          rows := [row];
          ZeroRow(g, q, rec, relVar, pathVar);
        }
      } else {
        assert PathRows(g, q, rec, relVar, pathVar, []) == rows;
      }
      return;
    }
    var hops, found;
    ghost var chains;
    full, hops, found, chains := FindShortest(storage, q, target, min, max, all);
    if full {
      return;
    }
    rows := RowsOfFound(storage, q, rec, relVar, pathVar, hops, found, chains);
  }

  // A row for every arena entry found.
  method RowsOfFound(storage: MemoryStorage, q: Search, rec: Record, relVar: Option<string>, pathVar: string,
                     hops: seq<Hop>, found: seq<nat>, ghost chains: seq<Trail>)
    returns (rows: seq<Record>)
    requires HopsOk(storage.View(), q, hops, chains) && forall i :: 0 <= i < |found| ==> found[i] < |chains|
    ensures rows == PathRows(storage.View(), q, rec, relVar, pathVar, FoundTrails(chains, found))
  {
    hide HopsOk, PathRels, PathNodes;
    ghost var g := storage.View();
    SizesAgree(g, q, hops, chains);
    rows := [];
    for i := 0 to |found|
      invariant rows == PathRows(g, q, rec, relVar, pathVar, FoundTrails(chains, found)[..i])
    {
      var rels, nodes := ReadChain(storage, hops, found[i], q, chains);
      var first := storage.GetNode(q.start);
      var pathNodes := (if first.Some? then [first.value] else []) + nodes;
      var row := rec[pathVar := PathVal(pathNodes, rels)];
      if relVar.Some? {
        row := row[relVar.value := ListVal(RelList(rels))];
      }
      PathRowsStep(g, q, rec, relVar, pathVar, FoundTrails(chains, found), i);
      rows := rows + [row];
    }
    assert FoundTrails(chains, found)[..|found|] == FoundTrails(chains, found);
  }

  method ExecuteShortestPath(storage: MemoryStorage, input: seq<Record>, srcVar: string, dstVar: string,
                             relVar: Option<string>, pathVar: string, relTypes: seq<string>, dir: Direction,
                             min: nat, max: Option<nat>, all: bool)
    returns (r: V.SearchResult<seq<Record>>, ghost parts: seq<seq<Record>>)
    requires storage.Valid()
    ensures r.Rows? ==>
              && |parts| == |input| && r.rows == Flatten(parts)
              && forall i :: 0 <= i < |input| ==>
                   PairRows(storage.View(), input[i], srcVar, dstVar, relVar, pathVar, relTypes, dir, min,
                            V.EffectiveMax(max), all, parts[i])
    ensures r.ArenaFull? ==> exists i | 0 <= i < |input| ::
              ArenaExceeded(storage.View(), input[i], srcVar, relTypes, dir, V.EffectiveMax(max), all)
    ensures !r.DefaultLimitExceeded?
    ensures r.Rows? ==> forall i :: 0 <= i < |input| ==>
              ShortestAnswer(storage.View(), input[i], srcVar, dstVar, relVar, pathVar, relTypes, dir, min,
                             if max.Some? then max.value else 100, all, parts[i])
  {
    hide MemoryStorage.Valid, PairRows, ArenaExceeded, ShortestAnswer;
    var rows: seq<Record> := [];
    parts := [];
    for i := 0 to |input|
      invariant |parts| == i && rows == Flatten(parts)
      invariant forall k :: 0 <= k < i ==>
                  PairRows(storage.View(), input[k], srcVar, dstVar, relVar, pathVar, relTypes, dir, min,
                           V.EffectiveMax(max), all, parts[k])
      invariant forall k :: 0 <= k < i ==>
                  ShortestAnswer(storage.View(), input[k], srcVar, dstVar, relVar, pathVar, relTypes, dir, min,
                                 V.EffectiveMax(max), all, parts[k])
    {
      var full, more :=
        ShortestRows(storage, input[i], srcVar, dstVar, relVar, pathVar, relTypes, dir, min, max, all);
      if full {
        return V.ArenaFull, [];
      }
      assert Init(parts + [more]) == parts && Last(parts + [more]) == more;
      rows := rows + more;
      parts := parts + [more];
    }
    r := V.Rows(rows);
  }
}
