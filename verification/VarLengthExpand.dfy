// `execute_var_length_expand`: breadth-first search over a parent-pointer
// arena, emitting a row for every trail of admissible length.

module VarLengthExpand {
  import opened GraphTypes
  import opened Sequences
  import opened AbstractGraph
  import opened MemoryStorages
  import opened Trails

  const DEFAULT_MAX_HOPS: nat := 100
  const ARENA_CAPACITY: nat := 0x1_0000_0000

  datatype SearchResult<+T> = Rows(rows: T) | DefaultLimitExceeded | ArenaFull

  // One arena entry: the entry it extends and the edge taken.
  datatype Step = Step(parent: Option<nat>, edge: EdgeId)

  // A queue entry: the node reached, its arena entry and the depth.
  datatype Entry = Entry(node: NodeId, at: Option<nat>, depth: nat)

  function TrailAt(chains: seq<Trail>, at: Option<nat>): Trail {
    if at.Some? && at.value < |chains| then chains[at.value] else []
  }

  // `chains` spells out the trail behind every arena entry; parents come first.
  ghost predicate ArenaOk(arena: seq<Step>, chains: seq<Trail>) {
    && |arena| == |chains|
    && forall i :: 0 <= i < |arena| ==>
         && (arena[i].parent.Some? ==> arena[i].parent.value < i)
         && chains[i] == TrailAt(chains, arena[i].parent) + [arena[i].edge]
  }

  lemma ArenaPush(arena: seq<Step>, chains: seq<Trail>, s: Step)
    requires ArenaOk(arena, chains)
    requires s.parent.Some? ==> s.parent.value < |arena|
    ensures ArenaOk(arena + [s], chains + [TrailAt(chains, s.parent) + [s.edge]])
  {
  }

  method PathChainContains(arena: seq<Step>, from: Option<nat>, edge: EdgeId, ghost chains: seq<Trail>)
    returns (b: bool)
    requires ArenaOk(arena, chains) && (from.Some? ==> from.value < |arena|)
    ensures b <==> edge in TrailAt(chains, from)
  {
    var cur: Option<nat> := from;
    while cur.Some?
      invariant cur.Some? ==> cur.value < |arena|
      invariant edge in TrailAt(chains, from) <==> edge in TrailAt(chains, cur)
      decreases if cur.Some? then cur.value + 1 else 0
    {
      var step := arena[cur.value];
      if step.edge == edge {
        return true;
      }
      cur := step.parent;
    }
    return false;
  }

  // The relationships of a trail in traversal order.
  ghost function RelValues(g: Graph, t: Trail): seq<Value> {
    if t == [] then []
    else RelValues(g, Init(t)) + Relationship(g, Last(t))
  }

  ghost function Relationship(g: Graph, e: EdgeId): seq<Value> {
    if e in g.edges then [RelVal(g.edges[e])] else []
  }

  lemma NothingCollected(g: Graph, chains: seq<Trail>, from: Option<nat>)
    ensures RelValues(g, TrailAt(chains, from)) + Reverse<Value>([]) == RelValues(g, TrailAt(chains, from))
    ensures RelValues(g, TrailAt(chains, None)) == []
    ensures forall s: seq<Value> :: [] + s == s
  {
  }

  lemma RelValuesStep(g: Graph, arena: seq<Step>, chains: seq<Trail>, at: nat)
    requires ArenaOk(arena, chains) && at < |arena|
    ensures arena[at].parent.Some? ==> arena[at].parent.value < at
    ensures RelValues(g, TrailAt(chains, Some(at))) ==
            RelValues(g, TrailAt(chains, arena[at].parent)) + Relationship(g, arena[at].edge)
  {
    var t := chains[at];
    assert Init(t) == TrailAt(chains, arena[at].parent) && Last(t) == arena[at].edge;
  }

  lemma CollectStep(g: Graph, arena: seq<Step>, chains: seq<Trail>, at: nat, collected: seq<Value>)
    requires ArenaOk(arena, chains) && at < |arena|
    ensures arena[at].parent.Some? ==> arena[at].parent.value < at
    ensures RelValues(g, TrailAt(chains, Some(at))) + Reverse(collected) ==
            RelValues(g, TrailAt(chains, arena[at].parent)) + Reverse(collected + Relationship(g, arena[at].edge))
  {
    hide ArenaOk, RelValues, Reverse, TrailAt;
    RelValuesStep(g, arena, chains, at);
    if arena[at].edge in g.edges {
      ReverseAppend(collected, RelVal(g.edges[arena[at].edge]));
    } else {
      assert collected + [] == collected;
    }
  }

  // Walks the chain back to the start and reverses what it collected.
  method EdgesInOrder(storage: MemoryStorage, arena: seq<Step>, from: Option<nat>, ghost chains: seq<Trail>)
    returns (edges: seq<Value>)
    requires ArenaOk(arena, chains) && (from.Some? ==> from.value < |arena|)
    ensures edges == RelValues(storage.View(), TrailAt(chains, from))
  {
    hide ArenaOk, RelValues, Reverse, TrailAt;
    var collected: seq<Value> := [];
    var cur: Option<nat> := from;
    NothingCollected(storage.View(), chains, from);
    while cur.Some?
      invariant cur.Some? ==> cur.value < |arena|
      invariant RelValues(storage.View(), TrailAt(chains, cur)) + Reverse(collected)
             == RelValues(storage.View(), TrailAt(chains, from))
      decreases if cur.Some? then cur.value + 1 else 0
    {
      var step := arena[cur.value];
      CollectStep(storage.View(), arena, chains, cur.value, collected);
      var edge := storage.GetEdge(step.edge);
      if edge.None? {
        assert collected + [] == collected;
      } else {
        collected := collected + [RelVal(edge.value)];
      }
      cur := step.parent;
    }
    edges := Reverse(collected);
  }

  // The row emitted for one trail.
  ghost function Row(g: Graph, q: Search, rec: Record, relVar: Option<string>, dstVar: string, t: Trail): Record
    requires EndOf(g, q, t) in g.nodes
  {
    (if relVar.Some? then rec[relVar.value := ListVal(RelValues(g, t))] else rec)
      [dstVar := NodeVal(g.nodes[EndOf(g, q, t)])]
  }

  ghost function RowsFor(g: Graph, q: Search, rec: Record, relVar: Option<string>, dstVar: string,
                         min: nat, ts: seq<Trail>): seq<Record>
  {
    if ts == [] then []
    else
      RowsFor(g, q, rec, relVar, dstVar, min, Init(ts)) +
      if Emitted(g, q, min, Last(ts)) then [Row(g, q, rec, relVar, dstVar, Last(ts))] else []
  }

  ghost predicate Emitted(g: Graph, q: Search, min: nat, t: Trail) {
    |t| >= min && EndOf(g, q, t) in g.nodes
  }

  // The trails that have a row, in row order.
  ghost function Selected(g: Graph, q: Search, min: nat, ts: seq<Trail>): seq<Trail> {
    if ts == [] then []
    else Selected(g, q, min, Init(ts)) + if Emitted(g, q, min, Last(ts)) then [Last(ts)] else []
  }

  lemma {:induction false} SelectedCount(g: Graph, q: Search, min: nat, ts: seq<Trail>, t: Trail)
    ensures multiset(Selected(g, q, min, ts))[t] == if Emitted(g, q, min, t) then multiset(ts)[t] else 0
    decreases |ts|
  {
    if ts != [] {
      assert ts == Init(ts) + [Last(ts)];
      SelectedCount(g, q, min, Init(ts), t);
    }
  }

  lemma {:induction false} RowsAreSelected(g: Graph, q: Search, rec: Record, relVar: Option<string>, dstVar: string,
                                           min: nat, ts: seq<Trail>)
    ensures var rows, kept := RowsFor(g, q, rec, relVar, dstVar, min, ts), Selected(g, q, min, ts);
            |rows| == |kept| && forall i :: 0 <= i < |rows| ==>
              Emitted(g, q, min, kept[i]) && rows[i] == Row(g, q, rec, relVar, dstVar, kept[i])
    decreases |ts|
  {
    if ts != [] {
      RowsAreSelected(g, q, rec, relVar, dstVar, min, Init(ts));
    }
  }

  lemma {:induction false} WalkEndsLive(g: Graph, q: Search, t: Trail)
    requires GraphOk(g) && IsWalk(g, q, t) && t != []
    ensures EndOf(g, q, t) in g.nodes
  {
  }

  // The rows of one input record are the images of the trails of length
  // max(1, min) .. effective max, each with its multiplicity.
  lemma VarLengthRowsExact(g: Graph, q: Search, rec: Record, relVar: Option<string>, dstVar: string,
                           min: nat, max: nat, t: Trail)
    requires GraphOk(g)
    ensures var kept := Selected(g, q, min, AllTrails(g, q, max));
            var rows := RowsFor(g, q, rec, relVar, dstVar, min, AllTrails(g, q, max));
            && multiset(kept)[t] == (if 1 <= |t| && min <= |t| <= max && IsTrail(g, q, t) then Multiplicity(g, q, t) else 0)
            && |rows| == |kept|
            && forall i :: 0 <= i < |rows| ==>
                 EndOf(g, q, kept[i]) in g.nodes && rows[i] == Row(g, q, rec, relVar, dstVar, kept[i])
  {
    var ts := AllTrails(g, q, max);
    SelectedCount(g, q, min, ts, t);
    AllTrailsExact(g, q, max, t);
    RowsAreSelected(g, q, rec, relVar, dstVar, min, ts);
    if 1 <= |t| && IsWalk(g, q, t) {
      WalkEndsLive(g, q, t);
    }
  }

  // --- What the rows show ---

  // The relationships of the trail, from its first to its last.
  ghost predicate ListsTrail(g: Graph, t: Trail, v: Value) {
    && v.ListVal? && |v.items| == |t|
    && forall k :: 0 <= k < |t| ==> t[k] in g.edges && v.items[k] == RelVal(g.edges[t[k]])
  }

  // The row holds the node the trail ends at and, under their variable, its
  // relationships; every other column is as it was.
  ghost predicate ShowsTrail(g: Graph, q: Search, rec: Record, relVar: Option<string>, dstVar: string, t: Trail, row: Record) {
    && (exists nodes: seq<NodeId> ::
          Visits(g, q, t, nodes) && Last(nodes) in g.nodes && dstVar in row && row[dstVar] == NodeVal(g.nodes[Last(nodes)]))
    && (relVar.Some? && relVar.value != dstVar ==> relVar.value in row && ListsTrail(g, t, row[relVar.value]))
    && SameBut(rec, row, {dstVar} + if relVar.Some? then {relVar.value} else {})
  }

  // One row for every walk of admissible length that repeats no relationship,
  // as often as its undirected self-loops dictate, and no other row.
  ghost predicate TrailRows(g: Graph, q: Search, rec: Record, relVar: Option<string>, dstVar: string, min: nat, max: nat,
                            rows: seq<Record>)
  {
    exists kept: seq<Trail> ::
      && |kept| == |rows| && (forall i :: 0 <= i < |rows| ==> ShowsTrail(g, q, rec, relVar, dstVar, kept[i], rows[i]))
      && KeepsTrails(g, q, min, max, kept)
  }

  ghost predicate KeepsTrails(g: Graph, q: Search, min: nat, max: nat, kept: seq<Trail>) {
    forall t: Trail :: multiset(kept)[t] ==
      if 1 <= |t| && min <= |t| <= max && NoDup(t) && exists nodes: seq<NodeId> :: Visits(g, q, t, nodes)
      then Multiplicity(g, q, t) else 0
  }

  lemma {:induction false} RelValuesMean(g: Graph, q: Search, t: Trail)
    requires IsWalk(g, q, t)
    ensures ListsTrail(g, t, ListVal(RelValues(g, t)))
    decreases |t|
  {
    if t != [] {
      RelValuesMean(g, q, Init(t));
    }
  }

  lemma RowShows(g: Graph, q: Search, rec: Record, relVar: Option<string>, dstVar: string, t: Trail)
    requires IsWalk(g, q, t) && EndOf(g, q, t) in g.nodes
    ensures ShowsTrail(g, q, rec, relVar, dstVar, t, Row(g, q, rec, relVar, dstVar, t))
  {
    hide ListsTrail, RelValues;
    var nodes := WalkMeans(g, q, t);
    RelValuesMean(g, q, t);
  }

  lemma RowsMean(g: Graph, q: Search, rec: Record, relVar: Option<string>, dstVar: string, min: nat, max: nat)
    requires GraphOk(g)
    ensures TrailRows(g, q, rec, relVar, dstVar, min, max, RowsFor(g, q, rec, relVar, dstVar, min, AllTrails(g, q, max)))
  {
    hide Row, RowsFor, Selected, AllTrails, ShowsTrail, Visits, IsWalk, Multiplicity, GraphOk;
    var kept := Selected(g, q, min, AllTrails(g, q, max));
    var rows := RowsFor(g, q, rec, relVar, dstVar, min, AllTrails(g, q, max));
    forall t: Trail
      ensures multiset(kept)[t] ==
              if 1 <= |t| && min <= |t| <= max && NoDup(t) && exists nodes: seq<NodeId> :: Visits(g, q, t, nodes)
              then Multiplicity(g, q, t) else 0
    {
      VarLengthRowsExact(g, q, rec, relVar, dstVar, min, max, t);
      var nodes := WalkMeans(g, q, t);
    }
    VarLengthRowsExact(g, q, rec, relVar, dstVar, min, max, []);
    forall i | 0 <= i < |rows| ensures ShowsTrail(g, q, rec, relVar, dstVar, kept[i], rows[i]) {
      assert multiset(kept)[kept[i]] > 0;
      VarLengthRowsExact(g, q, rec, relVar, dstVar, min, max, kept[i]);
      RowShows(g, q, rec, relVar, dstVar, kept[i]);
    }
    assert KeepsTrails(g, q, min, max, kept);
  }

  function EffectiveMax(max: Option<nat>): nat {
    if max.Some? then max.value else DEFAULT_MAX_HOPS
  }

  // Queue entries paired with the trails they stand for.
  ghost predicate QueueOk(g: Graph, q: Search, max: nat, chains: seq<Trail>,
                          queue: seq<Entry>, trails: seq<Trail>)
  {
    && |queue| == |trails|
    && forall i :: 0 <= i < |queue| ==>
         && (queue[i].at.Some? ==> queue[i].at.value < |chains|)
         && trails[i] == TrailAt(chains, queue[i].at)
         && queue[i].node == EndOf(g, q, trails[i])
         && queue[i].depth == |trails[i]|
         && (trails[i] == [] || |trails[i]| < max)
  }

  lemma SearchBegins(g: Graph, q: Search, max: nat)
    ensures ArenaOk([], []) && QueueOk(g, q, max, [], [Entry(q.start, None, 0)], [[]])
    ensures Bfs(g, q, max, []) == []
    ensures [] + Bfs(g, q, max, [[]]) == AllTrails(g, q, max)
  {
  }

  lemma BfsStep(g: Graph, q: Search, max: nat, trails: seq<Trail>)
    requires trails != []
    ensures Bfs(g, q, max, trails) ==
            if |trails[0]| >= max then Bfs(g, q, max, trails[1..])
            else Extend(g, q, trails[0]) + Bfs(g, q, max, trails[1..] + Short(max, Extend(g, q, trails[0])))
  {
  }

  lemma QueuePop(g: Graph, q: Search, max: nat, chains: seq<Trail>,
                 queue: seq<Entry>, trails: seq<Trail>)
    requires QueueOk(g, q, max, chains, queue, trails) && queue != []
    ensures trails != [] && QueueOk(g, q, max, chains, queue[1..], trails[1..])
    ensures queue[0].at.Some? ==> queue[0].at.value < |chains|
    ensures trails[0] == TrailAt(chains, queue[0].at) && queue[0].node == EndOf(g, q, trails[0])
    ensures queue[0].depth == |trails[0]| && (queue[0].depth == 0 || queue[0].depth < max)
  {
  }

  lemma QueueEmpty(g: Graph, q: Search, max: nat, chains: seq<Trail>,
                   queue: seq<Entry>, trails: seq<Trail>)
    requires QueueOk(g, q, max, chains, queue, trails) && queue == []
    ensures trails == [] && Bfs(g, q, max, trails) == []
  {
  }

  lemma ArenaSizes(arena: seq<Step>, chains: seq<Trail>)
    requires ArenaOk(arena, chains)
    ensures |arena| == |chains|
  {
  }

  lemma QueueGrows(g: Graph, q: Search, max: nat, chains: seq<Trail>, more: seq<Trail>,
                   queue: seq<Entry>, trails: seq<Trail>)
    requires QueueOk(g, q, max, chains, queue, trails)
    ensures QueueOk(g, q, max, chains + more, queue, trails)
  {
  }

  lemma QueuePush(g: Graph, q: Search, max: nat, chains: seq<Trail>,
                  queue: seq<Entry>, trails: seq<Trail>, node: NodeId, idx: nat)
    requires QueueOk(g, q, max, chains, queue, trails)
    requires idx < |chains| && node == EndOf(g, q, chains[idx]) && |chains[idx]| < max
    ensures QueueOk(g, q, max, chains, queue + [Entry(node, Some(idx), |chains[idx]|)], trails + [chains[idx]])
  {
  }

  lemma {:induction false} ShortAppend(max: nat, ts: seq<Trail>, t: Trail)
    ensures Short(max, ts + [t]) == Short(max, ts) + if |t| < max then [t] else []
    decreases |ts|
  {
    if ts == [] {
      assert ts + [t] == [t];
    } else {
      assert (ts + [t])[1..] == ts[1..] + [t];
      ShortAppend(max, ts[1..], t);
    }
  }

  lemma QueueTrailsGrow(max: nat, before: seq<Trail>, done: seq<Trail>, t: Trail)
    ensures before + Short(max, done + [t]) ==
            if |t| < max then before + Short(max, done) + [t] else before + Short(max, done)
  {
    ShortAppend(max, done, t);
    assert Short(max, done) + [] == Short(max, done);
  }

  method CandidateIds(storage: MemoryStorage, dir: Direction, n: NodeId) returns (ids: seq<EdgeId>)
    requires storage.Valid()
    ensures ids == Candidates(storage.View(), dir, n)
  {
    match dir
    case Outgoing => ids := storage.OutgoingEdgeIds(n);
    case Incoming => ids := storage.IncomingEdgeIds(n);
    case Undirected => ids := storage.OutgoingEdgeIds(n) + storage.IncomingEdgeIds(n);
  }

  lemma NoRows(g: Graph, q: Search, rec: Record, relVar: Option<string>, dstVar: string, min: nat)
    ensures RowsFor(g, q, rec, relVar, dstVar, min, []) == []
  {
  }

  // The search from one input row.
  method ExpandRow(storage: MemoryStorage, rec: Record, start: NodeId, relVar: Option<string>, dstVar: string,
                   relTypes: seq<string>, dir: Direction, min: nat, max: Option<nat>)
    returns (r: SearchResult<seq<Record>>)
    requires storage.Valid()
    ensures var g, q := storage.View(), Search(dir, relTypes, start);
            var ts := AllTrails(g, q, EffectiveMax(max));
            r == if |ts| > ARENA_CAPACITY then ArenaFull
                 else Rows(RowsFor(g, q, rec, relVar, dstVar, min, ts))
    ensures r.Rows? ==>
              TrailRows(storage.View(), Search(dir, relTypes, start), rec, relVar, dstVar, min,
                        if max.Some? then max.value else 100, r.rows)
  {
    hide MemoryStorage.Valid, ArenaOk, QueueOk, Bfs, Costs, Extend, Short, RowsFor, EndOf, TrailAt, AllTrails, TrailRows;
    StorageIsOk(storage);
    RowsMean(storage.View(), Search(dir, relTypes, start), rec, relVar, dstVar, min, EffectiveMax(max));
    NoRows(storage.View(), Search(dir, relTypes, start), rec, relVar, dstVar, min);
    ghost var g := storage.View();
    var q := Search(dir, relTypes, start);
    var unbounded, effectiveMax := max.None?, EffectiveMax(max);
    var rows := [];
    var arena: seq<Step> := [];
    ghost var chains: seq<Trail> := [];
    var queue: seq<Entry> := [Entry(start, None, 0)];
    ghost var trails: seq<Trail> := [[]];
    SearchBegins(g, q, effectiveMax);
    while queue != []
      invariant ArenaOk(arena, chains) && |arena| <= ARENA_CAPACITY
      invariant QueueOk(g, q, effectiveMax, chains, queue, trails)
      invariant chains + Bfs(g, q, effectiveMax, trails) == AllTrails(g, q, effectiveMax)
      invariant rows == RowsFor(g, q, rec, relVar, dstVar, min, chains)
      decreases Costs(g, q, effectiveMax, 0, trails)
    {
      QueuePop(g, q, effectiveMax, chains, queue, trails);
      QueueShrinks(g, q, effectiveMax, trails);
      BfsStep(g, q, effectiveMax, trails);
      ArenaSizes(arena, chains);
      var Entry(curId, pathIdx, depth) := queue[0];
      ghost var t := trails[0];
      queue, trails := queue[1..], trails[1..];
      if depth >= effectiveMax {
        if unbounded {
          // The source returns DefaultLimitExceeded here. Only entries
          // shorter than the limit are ever queued, so it never does.
          assert false;
        }
        continue;
      }
      var candidates := CandidateIds(storage, dir, curId);
      r, rows, arena, queue, chains, trails :=
        ExpandEntry(storage, rec, q, relVar, dstVar, min, effectiveMax, rows, arena, queue, chains, trails,
                    curId, pathIdx, depth, candidates, t);
      if r.ArenaFull? {
        return;
      }
    }
    assert chains + [] == chains;
    ArenaSizes(arena, chains);
    QueueEmpty(g, q, effectiveMax, chains, queue, trails);
    r := Rows(rows);
  }

  // Emit a row for the newest arena entry when its length is admissible.
  method Emit(storage: MemoryStorage, rec: Record, q: Search, relVar: Option<string>, dstVar: string, min: nat,
              rows0: seq<Record>, arena: seq<Step>, ghost chains: seq<Trail>, nextId: NodeId, newDepth: nat)
    returns (rows: seq<Record>)
    requires ArenaOk(arena, chains) && chains != [] && newDepth == |Last(chains)|
    requires nextId == EndOf(storage.View(), q, Last(chains))
    requires rows0 == RowsFor(storage.View(), q, rec, relVar, dstVar, min, Init(chains))
    ensures rows == RowsFor(storage.View(), q, rec, relVar, dstVar, min, chains)
  {
    hide ArenaOk, EndOf, RelValues;
    ArenaSizes(arena, chains);
    rows := rows0;
    var dstNode := storage.GetNode(nextId);
    if newDepth >= min && dstNode.Some? {
      var row := rec;
      if relVar.Some? {
        var edges := EdgesInOrder(storage, arena, Some(|arena| - 1), chains);
        row := row[relVar.value := ListVal(edges)];
      }
      row := row[dstVar := NodeVal(dstNode.value)];
      rows := rows + [row];
    }
  }

  lemma ExtendStep(g: Graph, q: Search, t: Trail, done: seq<Trail>, ids: seq<EdgeId>, j: nat)
    requires j < |ids| && done + ExtendOver(g, q, t, ids[j..]) == Extend(g, q, t)
    ensures (if Extends(g, q, t, ids[j]) then done + [t + [ids[j]]] else done)
            + ExtendOver(g, q, t, ids[j + 1..]) == Extend(g, q, t)
  {
    hide Extend, Extends;
    ExtendOverStep(g, q, t, ids, j);
    var more := ExtendOver(g, q, t, ids[j + 1..]);
    assert done + ([t + [ids[j]]] + more) == (done + [t + [ids[j]]]) + more;
  }

  lemma ExtendOverStep(g: Graph, q: Search, t: Trail, ids: seq<EdgeId>, j: nat)
    requires j < |ids|
    ensures ExtendOver(g, q, t, ids[j..]) ==
            (if Extends(g, q, t, ids[j]) then [t + [ids[j]]] + ExtendOver(g, q, t, ids[j + 1..])
             else ExtendOver(g, q, t, ids[j + 1..]))
  {
    assert ids[j..][0] == ids[j] && ids[j..][1..] == ids[j + 1..];
  }

  lemma ExtendBegins(g: Graph, q: Search, max: nat, t: Trail, ids: seq<EdgeId>, chains: seq<Trail>, trails: seq<Trail>)
    requires ids == Candidates(g, q.dir, EndOf(g, q, t))
    ensures [] + ExtendOver(g, q, t, ids[0..]) == Extend(g, q, t) && ExtendOver(g, q, t, ids[|ids|..]) == []
    ensures chains + [] == chains && trails + Short(max, []) == trails
    ensures forall s: seq<Trail> :: s + [] == s
  {
    assert ids[0..] == ids;
  }

  lemma ExtendedEnd(g: Graph, q: Search, t: Trail, e: EdgeId)
    requires e in g.edges
    ensures EndOf(g, q, t + [e]) == Far(q.dir, g.edges[e], EndOf(g, q, t))
  {
    assert Init(t + [e]) == t && Last(t + [e]) == e;
  }

  // The loop over the candidate edges of one queue entry.
  method ExpandEntry(storage: MemoryStorage, rec: Record, q: Search, relVar: Option<string>, dstVar: string,
                     min: nat, max: nat, rows0: seq<Record>, arena0: seq<Step>,
                     queue0: seq<Entry>, ghost chains0: seq<Trail>, ghost trails0: seq<Trail>,
                     curId: NodeId, pathIdx: Option<nat>, depth: nat, candidates: seq<EdgeId>, ghost t: Trail)
    returns (r: SearchResult<seq<Record>>, rows: seq<Record>, arena: seq<Step>,
             queue: seq<Entry>, ghost chains: seq<Trail>, ghost trails: seq<Trail>)
    requires storage.Valid()
    requires ArenaOk(arena0, chains0) && |arena0| <= ARENA_CAPACITY
    requires QueueOk(storage.View(), q, max, chains0, queue0, trails0)
    requires rows0 == RowsFor(storage.View(), q, rec, relVar, dstVar, min, chains0)
    requires pathIdx.Some? ==> pathIdx.value < |arena0|
    requires t == TrailAt(chains0, pathIdx) && curId == EndOf(storage.View(), q, t) && depth == |t| < max
    requires candidates == Candidates(storage.View(), q.dir, curId)
    ensures r.ArenaFull? <==> |chains0| + |Extend(storage.View(), q, t)| > ARENA_CAPACITY
    ensures !r.DefaultLimitExceeded?
    ensures r.Rows? ==>
              && ArenaOk(arena, chains) && |arena| <= ARENA_CAPACITY
              && QueueOk(storage.View(), q, max, chains, queue, trails)
              && chains == chains0 + Extend(storage.View(), q, t)
              && trails == trails0 + Short(max, Extend(storage.View(), q, t))
              && rows == RowsFor(storage.View(), q, rec, relVar, dstVar, min, chains)
  {
    hide MemoryStorage.Valid, ArenaOk, QueueOk, EndOf, ExtendOver, Extend, Short, RowsFor, Candidates, Far;
    ArenaSizes(arena0, chains0);
    ghost var g := storage.View();
    ExtendBegins(g, q, max, t, candidates, chains0, trails0);
    rows, arena, queue, chains, trails := rows0, arena0, queue0, chains0, trails0;
    ghost var done: seq<Trail> := [];
    for j := 0 to |candidates|
      invariant ArenaOk(arena, chains) && |arena| <= ARENA_CAPACITY
      invariant QueueOk(g, q, max, chains, queue, trails)
      invariant chains == chains0 + done && trails == trails0 + Short(max, done)
      invariant done + ExtendOver(g, q, t, candidates[j..]) == Extend(g, q, t)
      invariant rows == RowsFor(g, q, rec, relVar, dstVar, min, chains)
    {
      var eid := candidates[j];
      ExtendStep(g, q, t, done, candidates, j);
      ArenaSizes(arena, chains);
      assert TrailAt(chains, pathIdx) == t;
      var found := storage.GetEdge(eid);
      if found.None? {
        continue;
      }
      var edge := found.value;
      var onPath := PathChainContains(arena, pathIdx, eid, chains);
      if onPath {
        continue;
      }
      if !TypeOk(q.relTypes, edge.relType) {
        continue;
      }
      var nextId := Far(q.dir, edge, curId);
      var newIdx := |arena|;
      ghost var t2 := t + [eid];
      ExtendedEnd(g, q, t, eid);
      if newIdx >= ARENA_CAPACITY {
        assert |Extend(g, q, t)| > |done|;
        r := ArenaFull;
        return;
      }
      ArenaPush(arena, chains, Step(pathIdx, eid));
      QueueGrows(g, q, max, chains, [t2], queue, trails);
      arena := arena + [Step(pathIdx, eid)];
      chains := chains + [t2];
      assert Init(chains) == chains0 + done && Last(chains) == t2;
      QueueTrailsGrow(max, trails0, done, t2);
      done := done + [t2];
      var newDepth := depth + 1;
      rows := Emit(storage, rec, q, relVar, dstVar, min, rows, arena, chains, nextId, newDepth);
      if newDepth < max {
        QueuePush(g, q, max, chains, queue, trails, nextId, newIdx);
        queue := queue + [Entry(nextId, Some(newIdx), newDepth)];
        trails := trails + [t2];
      }
    }
    assert done == Extend(g, q, t);
    ArenaSizes(arena, chains);
    r := Rows(rows);
  }

  // All input rows. A row whose source is not a node is skipped.
  ghost function ExpandAll(g: Graph, input: seq<Record>, srcVar: string, relVar: Option<string>, dstVar: string,
                           relTypes: seq<string>, dir: Direction, min: nat, max: nat): SearchResult<seq<Record>>
  {
    if input == [] then Rows([])
    else
      var before := ExpandAll(g, Init(input), srcVar, relVar, dstVar, relTypes, dir, min, max);
      var rec := Last(input);
      if !before.Rows? || !(srcVar in rec && rec[srcVar].NodeVal?) then before
      else
        var q := Search(dir, relTypes, rec[srcVar].node.id);
        var ts := AllTrails(g, q, max);
        if |ts| > ARENA_CAPACITY then ArenaFull
        else Rows(before.rows + RowsFor(g, q, rec, relVar, dstVar, min, ts))
  }

  // The rows of one input row: of its trails, or none when its source is no node.
  ghost predicate Expanded(g: Graph, rec: Record, srcVar: string, relVar: Option<string>, dstVar: string,
                           relTypes: seq<string>, dir: Direction, min: nat, max: nat, rows: seq<Record>)
  {
    if srcVar in rec && rec[srcVar].NodeVal?
    then TrailRows(g, Search(dir, relTypes, rec[srcVar].node.id), rec, relVar, dstVar, min, max, rows)
    else rows == []
  }

  // Blocks of rows, one for each input row, in order.
  ghost predicate ExpandedInOrder(g: Graph, input: seq<Record>, srcVar: string, relVar: Option<string>, dstVar: string,
                                  relTypes: seq<string>, dir: Direction, min: nat, max: nat, blocks: seq<seq<Record>>)
  {
    && |blocks| == |input|
    && forall i :: 0 <= i < |input| ==> Expanded(g, input[i], srcVar, relVar, dstVar, relTypes, dir, min, max, blocks[i])
  }

  lemma {:induction false} ExpandAllMeans(g: Graph, input: seq<Record>, srcVar: string, relVar: Option<string>, dstVar: string,
                                          relTypes: seq<string>, dir: Direction, min: nat, max: nat)
    returns (blocks: seq<seq<Record>>)
    requires GraphOk(g) && ExpandAll(g, input, srcVar, relVar, dstVar, relTypes, dir, min, max).Rows?
    ensures ExpandedInOrder(g, input, srcVar, relVar, dstVar, relTypes, dir, min, max, blocks)
    ensures ExpandAll(g, input, srcVar, relVar, dstVar, relTypes, dir, min, max).rows == Flatten(blocks)
    decreases |input|
  {
    hide TrailRows, RowsFor, AllTrails, GraphOk;
    if input == [] {
      blocks := [];
    } else {
      var before := ExpandAllMeans(g, Init(input), srcVar, relVar, dstVar, relTypes, dir, min, max);
      var rec := Last(input);
      var rows: seq<Record> := [];
      if srcVar in rec && rec[srcVar].NodeVal? {
        var q := Search(dir, relTypes, rec[srcVar].node.id);
        rows := RowsFor(g, q, rec, relVar, dstVar, min, AllTrails(g, q, max));
        RowsMean(g, q, rec, relVar, dstVar, min, max);
      }
      blocks := before + [rows];
      assert Init(blocks) == before && Last(blocks) == rows;
      forall i | 0 <= i < |input| ensures Expanded(g, input[i], srcVar, relVar, dstVar, relTypes, dir, min, max, blocks[i]) {
        assert i < |input| - 1 ==> input[i] == Init(input)[i] && blocks[i] == before[i];
      }
    }
  }

  method ExecuteVarLengthExpand(storage: MemoryStorage, input: seq<Record>, srcVar: string, relVar: Option<string>,
                                dstVar: string, relTypes: seq<string>, dir: Direction, min: nat, max: Option<nat>)
    returns (r: SearchResult<seq<Record>>)
    requires storage.Valid()
    ensures r == ExpandAll(storage.View(), input, srcVar, relVar, dstVar, relTypes, dir, min, EffectiveMax(max))
    ensures !r.DefaultLimitExceeded?
    ensures r.Rows? ==> exists blocks ::
              && ExpandedInOrder(storage.View(), input, srcVar, relVar, dstVar, relTypes, dir, min,
                                 if max.Some? then max.value else 100, blocks)
              && r.rows == Flatten(blocks)
  {
    hide MemoryStorage.Valid, TrailRows;
    StorageIsOk(storage);
    var rows: seq<Record> := [];
    for i := 0 to |input|
      invariant Rows(rows) == ExpandAll(storage.View(), input[..i], srcVar, relVar, dstVar, relTypes, dir, min, EffectiveMax(max))
    {
      var rec := input[i];
      assert Init(input[..i + 1]) == input[..i] && Last(input[..i + 1]) == rec;
      if !(srcVar in rec && rec[srcVar].NodeVal?) {
        continue;
      }
      r := ExpandRow(storage, rec, rec[srcVar].node.id, relVar, dstVar, relTypes, dir, min, max);
      if !r.Rows? {
        ExpandAllFails(storage.View(), input, i + 1, srcVar, relVar, dstVar, relTypes, dir, min, EffectiveMax(max));
        return;
      }
      rows := rows + r.rows;
    }
    assert input[..|input|] == input;
    r := Rows(rows);
    ghost var blocks :=
      ExpandAllMeans(storage.View(), input, srcVar, relVar, dstVar, relTypes, dir, min, EffectiveMax(max));
  }

  lemma {:induction false} ExpandAllFails(g: Graph, input: seq<Record>, i: nat, srcVar: string, relVar: Option<string>,
                                          dstVar: string, relTypes: seq<string>, dir: Direction, min: nat, max: nat)
    requires i <= |input|
    requires ExpandAll(g, input[..i], srcVar, relVar, dstVar, relTypes, dir, min, max).ArenaFull?
    ensures ExpandAll(g, input, srcVar, relVar, dstVar, relTypes, dir, min, max).ArenaFull?
    decreases |input| - i
  {
    if i == |input| {
      assert input[..i] == input;
    } else {
      assert Init(input[..i + 1]) == input[..i];
      ExpandAllFails(g, input, i + 1, srcVar, relVar, dstVar, relTypes, dir, min, max);
    }
  }
}
