// Pattern comprehensions over one hop: the values projected from the matches,
// found forwards or backwards.

module PatternComprehension {
  import opened GraphTypes
  import opened Sequences
  import opened AbstractGraph
  import opened MemoryStorages
  import opened Trails
  import opened Expressions
  import opened Planner
  import opened MatchExecution
  import opened MatchChain
  import opened PatternMatching
  import opened ReverseWalk

  // The row of a match: start, relationship and far node under their names.
  function PairRow(rec: Record, start: NodePattern, el: Element, from: Node, e: Edge, to: Node): Record {
    var r1 := if start.variable.Some? then rec[start.variable.value := NodeVal(from)] else rec;
    var r2 := if el.rel.variable.Some? then r1[el.rel.variable.value := RelVal(e)] else r1;
    if el.node.variable.Some? then r2[el.node.variable.value := NodeVal(to)] else r2
  }

  // What one match contributes: None is an error, Some(None) is filtered out.
  function Contribution(row: Record, filter: Option<Expr>, projection: Expr, ctx: Context): Option<Option<Value>> {
    var keep := if filter.None? then Some(Boolean(true)) else Eval(filter.value, row, ctx);
    if keep.None? then None
    else if !IsTruthy(keep.value) then Some(None)
    else
      var v := Eval(projection, row, ctx);
      if v.None? then None else Some(Some(v.value))
  }

  datatype Query = Query(rec: Record, ctx: Context, start: NodePattern, el: Element, filter: Option<Expr>, projection: Expr)

  ghost function PairValue(g: Graph, q: Query, x: Pair): Option<Option<Value>> {
    var next := Far(q.el.rel.dir, x.edge, x.from.id);
    if next in g.nodes
    then Contribution(PairRow(q.rec, q.start, q.el, x.from, x.edge, g.nodes[next]), q.filter, q.projection, q.ctx)
    else None
  }

  // The values of a list of matches in order; an error anywhere fails it all.
  ghost function Project(g: Graph, q: Query, pairs: seq<Pair>): Option<seq<Value>>
    decreases |pairs|
  {
    if pairs == [] then Some([])
    else
      var before, v := Project(g, q, Init(pairs)), PairValue(g, q, Last(pairs));
      if before.None? || v.None? then None
      else Some(before.value + if v.value.Some? then [v.value.value] else [])
  }

  // --- The order of the matches does not change the values as a multiset ---

  ghost function Yields(g: Graph, q: Query, pairs: seq<Pair>, v: Value): nat
    decreases |pairs|
  {
    if pairs == [] then 0 else Yields(g, q, Init(pairs), v) + if PairValue(g, q, Last(pairs)) == Some(Some(v)) then 1 else 0
  }

  lemma {:induction false} ProjectCount(g: Graph, q: Query, pairs: seq<Pair>, v: Value)
    ensures Project(g, q, pairs).Some? <==> forall x :: x in pairs ==> PairValue(g, q, x).Some?
    ensures Project(g, q, pairs).Some? ==> multiset(Project(g, q, pairs).value)[v] == Yields(g, q, pairs, v)
    decreases |pairs|
  {
    hide PairValue;
    if pairs != [] {
      assert forall x :: x in pairs <==> x in Init(pairs) || x == Last(pairs) by {
        assert pairs == Init(pairs) + [Last(pairs)];
      }
      ProjectCount(g, q, Init(pairs), v);
    }
  }

  lemma {:induction false} YieldsAppend(g: Graph, q: Query, a: seq<Pair>, b: seq<Pair>, v: Value)
    ensures Yields(g, q, a + b, v) == Yields(g, q, a, v) + Yields(g, q, b, v)
    decreases |b|
  {
    hide PairValue;
    if b == [] {
      assert a + b == a;
    } else {
      assert Init(a + b) == a + Init(b) && Last(a + b) == Last(b);
      YieldsAppend(g, q, a, Init(b), v);
    }
  }

  lemma {:induction false} YieldsPermuted(g: Graph, q: Query, a: seq<Pair>, b: seq<Pair>, v: Value)
    requires multiset(a) == multiset(b)
    ensures Yields(g, q, a, v) == Yields(g, q, b, v)
    decreases |a|
  {
    hide PairValue;
    if a == [] {
      assert |multiset(b)| == 0;
    } else {
      var i := RemoveMatching(a, b);
      var x, l, r := b[i], b[..i], b[i + 1..];
      assert b == (l + [x]) + r && Init(l + [x]) == l;
      YieldsAppend(g, q, l + [x], r, v);
      YieldsAppend(g, q, l, r, v);
      YieldsPermuted(g, q, Init(a), l + r, v);
    }
  }

  lemma ProjectPermuted(g: Graph, q: Query, a: seq<Pair>, b: seq<Pair>)
    requires multiset(a) == multiset(b)
    ensures Project(g, q, a).Some? <==> Project(g, q, b).Some?
    ensures Project(g, q, a).Some? ==> multiset(Project(g, q, a).value) == multiset(Project(g, q, b).value)
  {
    hide PairValue;
    assert forall x :: x in a <==> x in b by {
      assert forall x :: x in a <==> x in multiset(a);
      assert forall x :: x in b <==> x in multiset(b);
    }
    ProjectCount(g, q, a, Null);
    ProjectCount(g, q, b, Null);
    if Project(g, q, a).Some? {
      forall v ensures multiset(Project(g, q, a).value)[v] == multiset(Project(g, q, b).value)[v] {
        ProjectCount(g, q, a, v);
        ProjectCount(g, q, b, v);
        YieldsPermuted(g, q, a, b, v);
      }
    }
  }

  // The reverse walk projects the multiset of values the forward walk
  // projects, and fails exactly when it does.
  lemma ComprehensionReverses(g: Graph, q: Query, bound: Node, nodes: seq<Node>)
    requires GraphOk(g) && LiveNode(g, bound)
    requires TerminalAgrees(g, q.rec, q.ctx, q.start, q.el, true, bound)
    requires Enumerates(nodes, Matching(g, q.start, q.rec, q.ctx))
    ensures var back := Project(g, q, ReversePairs(g, q.rec, q.ctx, q.start, q.el, true, bound));
            var forth := Project(g, q, ForwardPairs(g, q.rec, q.ctx, q.start, q.el, true, OnlyNode(bound.id), nodes));
            && (back.Some? <==> forth.Some?)
            && (back.Some? ==> multiset(back.value) == multiset(forth.value))
  {
    ReverseEqualsForward(g, q.rec, q.ctx, q.start, q.el, true, bound, nodes);
    ProjectPermuted(g, q, ReversePairs(g, q.rec, q.ctx, q.start, q.el, true, bound),
                    ForwardPairs(g, q.rec, q.ctx, q.start, q.el, true, OnlyNode(bound.id), nodes));
  }

  // --- What is projected, in terms of the matches ---

  // A match of the hop; `early` when the far node is checked before the start
  // is in scope, as the reverse walk does.
  ghost predicate Hit(g: Graph, q: Query, early: bool, x: Pair, to: Node) {
    HopMatch(g, q.rec, q.ctx, q.start, q.el, true, early, x.from, x.edge, to)
  }

  // The row of a match: far node, relationship and start under their names, in
  // this order when names are shared, and the outer row elsewhere.
  ghost predicate IsRowOf(q: Query, x: Pair, to: Node, row: Record) {
    forall c: string ::
      if q.el.node.variable == Some(c) then c in row && row[c] == NodeVal(to)
      else if q.el.rel.variable == Some(c) then c in row && row[c] == RelVal(x.edge)
      else if q.start.variable == Some(c) then c in row && row[c] == NodeVal(x.from)
      else (c in row <==> c in q.rec) && (c in q.rec ==> row[c] == q.rec[c])
  }

  // The filter is absent or true on the row.
  predicate Stays(q: Query, row: Record) {
    q.filter.None? || Eval(q.filter.value, row, q.ctx) == Some(Boolean(true))
  }

  ghost predicate Gives(g: Graph, q: Query, early: bool, x: Pair, v: Value) {
    exists to, row :: Hit(g, q, early, x, to) && IsRowOf(q, x, to, row) && Stays(q, row) && Eval(q.projection, row, q.ctx) == Some(v)
  }

  // A filter that is an error, or a projection that is one on a row that stays.
  ghost predicate Breaks(g: Graph, q: Query, early: bool, x: Pair) {
    exists to, row :: Hit(g, q, early, x, to) && IsRowOf(q, x, to, row)
      && ((q.filter.Some? && Eval(q.filter.value, row, q.ctx).None?) || (Stays(q, row) && Eval(q.projection, row, q.ctx).None?))
  }

  // One value for every match whose row stays, two for an undirected self-loop.
  ghost predicate Answers(g: Graph, q: Query, early: bool, vs: seq<Value>) {
    exists kept: seq<Pair> ::
      && |kept| == |vs| && (forall i :: 0 <= i < |vs| ==> Gives(g, q, early, kept[i], vs[i]))
      && KeepsHits(g, q, early, kept)
  }

  ghost predicate KeepsHits(g: Graph, q: Query, early: bool, kept: seq<Pair>) {
    forall x: Pair :: multiset(kept)[x] ==
      if exists v :: Gives(g, q, early, x, v) then (if q.el.rel.dir.Undirected? && x.edge.src == x.edge.dst then 2 else 1) else 0
  }

  // The matches a walk found: each live match, as often as the walk meets it.
  ghost predicate FindsHits(g: Graph, q: Query, early: bool, pairs: seq<Pair>) {
    forall x: Pair :: multiset(pairs)[x] ==
      if exists to :: Hit(g, q, early, x, to) then (if q.el.rel.dir.Undirected? && x.edge.src == x.edge.dst then 2 else 1) else 0
  }

  lemma RowIs(q: Query, x: Pair, to: Node, row: Record)
    ensures IsRowOf(q, x, to, row) <==> row == PairRow(q.rec, q.start, q.el, x.from, x.edge, to)
  {
    var built := PairRow(q.rec, q.start, q.el, x.from, x.edge, to);
    assert IsRowOf(q, x, to, built);
    if IsRowOf(q, x, to, row) {
      forall c: string ensures (c in row <==> c in built) && (c in row ==> row[c] == built[c]) {}
    }
  }

  lemma HitIs(g: Graph, q: Query, early: bool, x: Pair, to: Node)
    requires Hit(g, q, early, x, to)
    ensures var next := Far(q.el.rel.dir, x.edge, x.from.id); next in g.nodes && to == g.nodes[next]
  {
    JoinsMeans(q.el.rel.dir, x.edge, x.from.id, to.id);
  }

  // What one match contributes is what it gives.
  lemma PairMeans(g: Graph, q: Query, early: bool, x: Pair, to: Node)
    requires Hit(g, q, early, x, to)
    ensures PairValue(g, q, x).None? <==> Breaks(g, q, early, x)
    ensures forall v :: PairValue(g, q, x) == Some(Some(v)) <==> Gives(g, q, early, x, v)
  {
    hide Hit, IsRowOf, PairRow, Far, Eval;
    HitIs(g, q, early, x, to);
    var row := PairRow(q.rec, q.start, q.el, x.from, x.edge, to);
    RowIs(q, x, to, row);
    forall t, r ensures Hit(g, q, early, x, t) && IsRowOf(q, x, t, r) ==> t == to && r == row {
      if Hit(g, q, early, x, t) { HitIs(g, q, early, x, t); RowIs(q, x, t, r); }
    }
    var keep := if q.filter.None? then Some(Boolean(true)) else Eval(q.filter.value, row, q.ctx);
    assert Stays(q, row) <==> keep == Some(Boolean(true));
    assert PairValue(g, q, x) == Contribution(row, q.filter, q.projection, q.ctx);
  }

  // The matches that contribute a value, in the order of the values.
  ghost function Contributing(g: Graph, q: Query, pairs: seq<Pair>): seq<Pair> {
    if pairs == [] then []
    else
      var v := PairValue(g, q, Last(pairs));
      Contributing(g, q, Init(pairs)) + if v.Some? && v.value.Some? then [Last(pairs)] else []
  }

  lemma {:induction false} ContributingMeans(g: Graph, q: Query, pairs: seq<Pair>, x: Pair)
    requires Project(g, q, pairs).Some?
    ensures var kept, vs := Contributing(g, q, pairs), Project(g, q, pairs).value;
            && |kept| == |vs| && (forall i :: 0 <= i < |vs| ==> kept[i] in pairs && PairValue(g, q, kept[i]) == Some(Some(vs[i])))
            && multiset(kept)[x] == if PairValue(g, q, x).Some? && PairValue(g, q, x).value.Some? then multiset(pairs)[x] else 0
    decreases |pairs|
  {
    hide PairValue;
    if pairs != [] {
      assert pairs == Init(pairs) + [Last(pairs)];
      ContributingMeans(g, q, Init(pairs), x);
    }
  }

  lemma ProjectMeans(g: Graph, q: Query, early: bool, pairs: seq<Pair>)
    requires FindsHits(g, q, early, pairs)
    ensures Project(g, q, pairs).None? <==> exists x :: Breaks(g, q, early, x)
    ensures Project(g, q, pairs).Some? ==> Answers(g, q, early, Project(g, q, pairs).value)
  {
    hide PairValue, Hit, Gives, Breaks, Project, Contributing;
    forall x: Pair
      ensures x in pairs <==> exists to :: Hit(g, q, early, x, to)
      ensures x in pairs ==> (PairValue(g, q, x).None? <==> Breaks(g, q, early, x))
      ensures x in pairs ==> forall v :: PairValue(g, q, x) == Some(Some(v)) <==> Gives(g, q, early, x, v)
      ensures x !in pairs ==> !Breaks(g, q, early, x) && forall v :: !Gives(g, q, early, x, v)
    {
      assert x in pairs <==> multiset(pairs)[x] > 0;
      if to :| Hit(g, q, early, x, to) {
        PairMeans(g, q, early, x, to);
      } else {
        NoHit(g, q, early, x);
      }
    }
    ProjectCount(g, q, pairs, Null);
    if Project(g, q, pairs).Some? {
      var kept, vs := Contributing(g, q, pairs), Project(g, q, pairs).value;
      ContributingMeans(g, q, pairs, Pair(Node(0, [], map[]), Edge(0, "", 0, 0, map[])));
      forall x: Pair
        ensures multiset(kept)[x] ==
          if exists v :: Gives(g, q, early, x, v) then (if q.el.rel.dir.Undirected? && x.edge.src == x.edge.dst then 2 else 1) else 0
      {
        ContributingMeans(g, q, pairs, x);
        assert x in pairs <==> multiset(pairs)[x] > 0;
      }
      assert KeepsHits(g, q, early, kept);
    }
  }

  lemma NoHit(g: Graph, q: Query, early: bool, x: Pair)
    requires forall to :: !Hit(g, q, early, x, to)
    ensures !Breaks(g, q, early, x) && forall v :: !Gives(g, q, early, x, v)
  {
  }

  lemma HitsAre(g: Graph, q: Query, early: bool, x: Pair)
    ensures (exists to :: Hit(g, q, early, x, to)) <==>
            exists to :: HopMatch(g, q.rec, q.ctx, q.start, q.el, true, early, x.from, x.edge, to)
  {
    hide HopMatch;
    if to :| HopMatch(g, q.rec, q.ctx, q.start, q.el, true, early, x.from, x.edge, to) {
      assert Hit(g, q, early, x, to);
    }
    if to :| Hit(g, q, early, x, to) {
      assert HopMatch(g, q.rec, q.ctx, q.start, q.el, true, early, x.from, x.edge, to);
    }
  }

  lemma ForwardFinds(g: Graph, q: Query, nodes: seq<Node>)
    requires GraphOk(g) && Enumerates(nodes, StartSet(g, q.rec, q.ctx, q.start))
    ensures FindsHits(g, q, false, ForwardPairs(g, q.rec, q.ctx, q.start, q.el, true, WantOf(q.rec, q.el.node), nodes))
  {
    hide HopMatch, ForwardKeeps, StartSet, CandidateEdges, Leaves, ForwardPairs, Hit;
    forall x: Pair
      ensures multiset(ForwardPairs(g, q.rec, q.ctx, q.start, q.el, true, WantOf(q.rec, q.el.node), nodes))[x] ==
        if exists to :: Hit(g, q, false, x, to) then (if q.el.rel.dir.Undirected? && x.edge.src == x.edge.dst then 2 else 1) else 0
    {
      ForwardPairsCount(g, q.rec, q.ctx, q.start, q.el, true, WantOf(q.rec, q.el.node), nodes, x);
      CandidateEdgeCount(g, q.el.rel.dir, x.from.id, x.edge);
      ForwardMatches(g, q.rec, q.ctx, q.start, q.el, true, x.from, x.edge);
      HitsAre(g, q, false, x);
    }
  }

  lemma BackwardFinds(g: Graph, q: Query, bound: Node)
    requires GraphOk(g) && LiveNode(g, bound) && BoundFarNode(q) == Some(bound)
    ensures FindsHits(g, q, true, ReversePairs(g, q.rec, q.ctx, q.start, q.el, true, bound))
  {
    hide HopMatch, Arrives, NodeHolds, ReversePairs, ForwardPairs, Hit;
    var nodes := SomeEnumeration(Matching(g, q.start, q.rec, q.ctx));
    forall x: Pair
      ensures multiset(ReversePairs(g, q.rec, q.ctx, q.start, q.el, true, bound))[x] ==
        if exists to :: Hit(g, q, true, x, to) then (if q.el.rel.dir.Undirected? && x.edge.src == x.edge.dst then 2 else 1) else 0
    {
      PairCounts(g, q.rec, q.ctx, q.start, q.el, true, bound, nodes, x);
      BackwardMatches(g, q.rec, q.ctx, q.start, q.el, true, bound, x);
      HitsAre(g, q, true, x);
    }
  }

  // --- The walks as they run ---

  lemma {:induction false} ProjectFails(g: Graph, q: Query, a: seq<Pair>, b: seq<Pair>)
    requires Project(g, q, a).None?
    ensures Project(g, q, a + b).None?
    decreases |b|
  {
    if b == [] {
      assert a + b == a;
    } else {
      assert Init(a + b) == a + Init(b);
      ProjectFails(g, q, a, Init(b));
    }
  }

  lemma {:induction false} EdgesPrefix(g: Graph, q: Query, want: Want, from: Node, es: seq<Edge>, j: nat) returns (more: seq<Pair>)
    requires j <= |es|
    ensures ForwardEdges(g, q.rec, q.ctx, q.start, q.el, true, want, from, es)
         == ForwardEdges(g, q.rec, q.ctx, q.start, q.el, true, want, from, es[..j]) + more
    decreases |es| - j
  {
    hide ForwardKeeps;
    if j == |es| {
      assert es[..j] == es;
      more := [];
    } else {
      assert Init(es[..j + 1]) == es[..j];
      var rest := EdgesPrefix(g, q, want, from, es, j + 1);
      more := (if ForwardKeeps(g, q.rec, q.ctx, q.start, q.el, true, want, from, es[j]) then [Pair(from, es[j])] else []) + rest;
    }
  }

  lemma {:induction false} PairsPrefix(g: Graph, q: Query, want: Want, nodes: seq<Node>, i: nat) returns (more: seq<Pair>)
    requires i <= |nodes|
    ensures ForwardPairs(g, q.rec, q.ctx, q.start, q.el, true, want, nodes)
         == ForwardPairs(g, q.rec, q.ctx, q.start, q.el, true, want, nodes[..i]) + more
    decreases |nodes| - i
  {
    hide ForwardEdges, CandidateEdges;
    if i == |nodes| {
      assert nodes[..i] == nodes;
      more := [];
    } else {
      assert Init(nodes[..i + 1]) == nodes[..i] && Last(nodes[..i + 1]) == nodes[i];
      var rest := PairsPrefix(g, q, want, nodes, i + 1);
      more := ForwardEdges(g, q.rec, q.ctx, q.start, q.el, true, want, nodes[i],
                           CandidateEdges(g, q.el.rel.dir, nodes[i].id)) + rest;
    }
  }

  lemma {:induction false} ReversePrefix(g: Graph, q: Query, bound: NodeId, es: seq<Edge>, j: nat) returns (more: seq<Pair>)
    requires j <= |es|
    ensures ReverseEdges(g, q.rec, q.ctx, q.start, q.el, true, bound, es)
         == ReverseEdges(g, q.rec, q.ctx, q.start, q.el, true, bound, es[..j]) + more
    decreases |es| - j
  {
    hide NodeHolds, RelHolds;
    if j == |es| {
      assert es[..j] == es;
      more := [];
    } else {
      assert Init(es[..j + 1]) == es[..j];
      var rest := ReversePrefix(g, q, bound, es, j + 1);
      more := (if ReverseKeeps(g, q.rec, q.ctx, q.start, q.el, true, bound, es[j])
               then [Pair(g.nodes[Behind(q.el.rel.dir, es[j], bound)], es[j])] else []) + rest;
    }
  }

  // The contribution of one match appended to the results so far.
  method Collect(q: Query, row: Record, results: seq<Value>, ghost g: Graph, ghost before: seq<Pair>, ghost x: Pair, ghost safe: bool)
    returns (r: Option<seq<Value>>)
    requires safe ==> Project(g, q, before) == Some(results)
    requires safe ==> PairValue(g, q, x) == Contribution(row, q.filter, q.projection, q.ctx)
    ensures safe ==> r == Project(g, q, before + [x])
  {
    hide PairValue, Contribution;
    assert Init(before + [x]) == before && Last(before + [x]) == x;
    var v := Contribution(row, q.filter, q.projection, q.ctx);
    if v.None? {
      return None;
    }
    assert results + [] == results;
    r := Some(results + if v.value.Some? then [v.value.value] else []);
  }

  // One edge of the forward walk.
  method WalkEdge(storage: MemoryStorage, q: Query, want: Want, from: Node, e: Edge, results: seq<Value>, ghost before: seq<Pair>,
                  ghost safe: bool)
    returns (r: Option<seq<Value>>)
    requires safe ==> HopEvaluates(q.rec, q.ctx, q.start, q.el, true, from)
    requires safe ==> Project(storage.View(), q, before) == Some(results)
    ensures safe ==>
              r == Project(storage.View(), q, before +
                           if ForwardKeeps(storage.View(), q.rec, q.ctx, q.start, q.el, true, want, from, e) then [Pair(from, e)] else [])
  {
    hide ForwardKeeps, NodeEvaluates, RelEvaluates, Contribution, Project;
    var m := ForwardEdge(storage, q.rec, q.ctx, q.start, q.el, true, want, from, e);
    assert before + [] == before;
    if m.None? {
      return None;
    }
    if !m.value {
      return Some(results);
    }
    var to := storage.GetNode(Far(q.el.rel.dir, e, from.id)).value;
    var row := PairRow(q.rec, q.start, q.el, from, e, to);
    r := Collect(q, row, results, storage.View(), before, Pair(from, e), safe);
  }

  // The forward walk from one start node.
  method WalkFrom(storage: MemoryStorage, q: Query, want: Want, from: Node, results0: seq<Value>, ghost before: seq<Pair>,
                  ghost safe: bool)
    returns (r: Option<seq<Value>>)
    requires storage.Valid()
    requires safe ==> HopEvaluates(q.rec, q.ctx, q.start, q.el, true, from)
    requires safe ==> Project(storage.View(), q, before) == Some(results0)
    ensures safe ==>
              r == Project(storage.View(), q, before + ForwardEdges(storage.View(), q.rec, q.ctx, q.start, q.el, true, want,
                                                                    from, CandidateEdges(storage.View(), q.el.rel.dir, from.id)))
  {
    hide MemoryStorage.Valid, ForwardKeeps, NodeEvaluates, RelEvaluates, Contribution, Project, CandidateEdges, EdgesOf;
    ghost var g := storage.View();
    var results := results0;
    var es := EdgesFrom(storage, q.el.rel.dir, from.id);
    assert before + [] == before;
    for j := 0 to |es|
      invariant safe ==>
                  Project(g, q, before + ForwardEdges(g, q.rec, q.ctx, q.start, q.el, true, want, from, es[..j])) == Some(results)
    {
      ghost var pairs := before + ForwardEdges(g, q.rec, q.ctx, q.start, q.el, true, want, from, es[..j]);
      var walked := WalkEdge(storage, q, want, from, es[j], results, pairs, safe);
      EdgesStep(g, q, want, from, es, j, before);
      if walked.None? {
        ghost var rest := EdgesPrefix(g, q, want, from, es, j + 1);
        ghost var upTo := ForwardEdges(g, q.rec, q.ctx, q.start, q.el, true, want, from, es[..j + 1]);
        if safe {
          ProjectFails(g, q, before + upTo, rest);
          assert before + (upTo + rest) == (before + upTo) + rest;
        }
        return None;
      }
      results := walked.value;
    }
    assert es[..|es|] == es;
    r := Some(results);
  }

  lemma EdgesStep(g: Graph, q: Query, want: Want, from: Node, es: seq<Edge>, j: nat, before: seq<Pair>)
    requires j < |es|
    ensures before + ForwardEdges(g, q.rec, q.ctx, q.start, q.el, true, want, from, es[..j + 1])
         == before + ForwardEdges(g, q.rec, q.ctx, q.start, q.el, true, want, from, es[..j])
            + if ForwardKeeps(g, q.rec, q.ctx, q.start, q.el, true, want, from, es[j]) then [Pair(from, es[j])] else []
  {
    assert Init(es[..j + 1]) == es[..j] && Last(es[..j + 1]) == es[j];
  }

  method ComprehensionForward(storage: MemoryStorage, q: Query) returns (r: Option<seq<Value>>, ghost nodes: seq<Node>)
    requires storage.Valid()
    ensures Evaluable(storage.View(), q.rec, q.ctx, q.start, q.el, true) ==>
              && Enumerates(nodes, StartSet(storage.View(), q.rec, q.ctx, q.start))
              && r == Project(storage.View(), q,
                              ForwardPairs(storage.View(), q.rec, q.ctx, q.start, q.el, true, WantOf(q.rec, q.el.node), nodes))
  {
    hide MemoryStorage.Valid, ForwardKeeps, StartSet, NodeEvaluates, RelEvaluates, ForwardEdges, HopEvaluates, Evaluable;
    ghost var g := storage.View();
    ghost var safe := Evaluable(g, q.rec, q.ctx, q.start, q.el, true);
    var want := WantOf(q.rec, q.el.node);
    var candidates := StartCandidates(storage, q.rec, q.ctx, q.start);
    if safe {
      EvaluableEnds(g, q.rec, q.ctx, q.start, q.el, true);
    }
    if candidates.None? {
      return None, [];
    }
    nodes := candidates.value;
    var results: seq<Value> := [];
    for i := 0 to |candidates.value|
      invariant safe ==>
                  Project(g, q, ForwardPairs(g, q.rec, q.ctx, q.start, q.el, true, want, nodes[..i])) == Some(results)
    {
      ghost var before := ForwardPairs(g, q.rec, q.ctx, q.start, q.el, true, want, nodes[..i]);
      if safe {
        EvaluableHop(g, q.rec, q.ctx, q.start, q.el, true, nodes, i);
      }
      var walked := WalkFrom(storage, q, want, candidates.value[i], results, before, safe);
      assert Init(nodes[..i + 1]) == nodes[..i] && Last(nodes[..i + 1]) == nodes[i];
      if walked.None? {
        if safe {
          ghost var rest := PairsPrefix(g, q, want, nodes, i + 1);
          ProjectFails(g, q, ForwardPairs(g, q.rec, q.ctx, q.start, q.el, true, want, nodes[..i + 1]), rest);
        }
        return None, nodes;
      }
      results := walked.value;
    }
    assert nodes[..|nodes|] == nodes;
    r := Some(results);
  }

  lemma NothingProjected(g: Graph, q: Query, bound: NodeId, es: seq<Edge>)
    ensures Project(g, q, []) == Some([])
    ensures ReverseEdges(g, q.rec, q.ctx, q.start, q.el, true, bound, es[..0]) == []
  {
  }

  lemma ReverseStep(g: Graph, q: Query, bound: NodeId, es: seq<Edge>, j: nat)
    requires j < |es|
    ensures ReverseEdges(g, q.rec, q.ctx, q.start, q.el, true, bound, es[..j + 1]) ==
            ReverseEdges(g, q.rec, q.ctx, q.start, q.el, true, bound, es[..j])
            + if ReverseKeeps(g, q.rec, q.ctx, q.start, q.el, true, bound, es[j])
              then [Pair(g.nodes[Behind(q.el.rel.dir, es[j], bound)], es[j])] else []
  {
    assert Init(es[..j + 1]) == es[..j] && Last(es[..j + 1]) == es[j];
  }

  method ComprehensionReverse(storage: MemoryStorage, q: Query, bound: Node) returns (r: Option<seq<Value>>)
    requires storage.Valid() && LiveNode(storage.View(), bound)
    ensures Evaluable(storage.View(), q.rec, q.ctx, q.start, q.el, true) && StartIsFree(q.rec, q.start) ==>
              r == Project(storage.View(), q, ReversePairs(storage.View(), q.rec, q.ctx, q.start, q.el, true, bound))
  {
    hide MemoryStorage.Valid, ReverseKeeps, NodeEvaluates, RelEvaluates, Contribution, NodeHolds, NodeMatches, Evaluable, BackEvaluates, Project, ReverseEdges;
    ghost var g := storage.View();
    ghost var safe := Evaluable(g, q.rec, q.ctx, q.start, q.el, true) && StartIsFree(q.rec, q.start);
    if safe {
      EvaluableEnds(g, q.rec, q.ctx, q.start, q.el, true);
      NodeMatchesMeaning(bound, q.el.node, q.rec, q.ctx);
    }
    NothingProjected(g, q, bound.id, []);
    var terminal := NodeMatches(bound, q.el.node, q.rec, q.ctx);
    if terminal != Some(true) {
      return if terminal.None? then None else Some([]);
    }
    var results: seq<Value> := [];
    var es := EdgesInto(storage, q.el.rel.dir, bound.id);
    NothingProjected(g, q, bound.id, es);
    for j := 0 to |es|
      invariant safe ==>
                  Project(g, q, ReverseEdges(g, q.rec, q.ctx, q.start, q.el, true, bound.id, es[..j])) == Some(results)
    {
      ghost var before := ReverseEdges(g, q.rec, q.ctx, q.start, q.el, true, bound.id, es[..j]);
      ReverseStep(g, q, bound.id, es, j);
      if safe {
        EvaluableBack(g, q.rec, q.ctx, q.start, q.el, true, bound.id, es[j]);
      }
      var walked := WalkBackEdge(storage, q, bound, es, j, results, before, safe);
      if walked.None? {
        ghost var rest := ReversePrefix(g, q, bound.id, es, j + 1);
        if safe {
          ProjectFails(g, q, ReverseEdges(g, q.rec, q.ctx, q.start, q.el, true, bound.id, es[..j + 1]), rest);
        }
        return None;
      }
      results := walked.value;
    }
    assert es[..|es|] == es;
    r := Some(results);
  }

  // One edge of the reverse walk.
  method WalkBackEdge(storage: MemoryStorage, q: Query, bound: Node, es: seq<Edge>, j: nat, results: seq<Value>,
                      ghost before: seq<Pair>, ghost safe: bool)
    returns (r: Option<seq<Value>>)
    requires storage.Valid() && LiveNode(storage.View(), bound) && j < |es|
    requires es == EdgesOf(storage.View(), ReverseCandidates(storage.View(), q.el.rel.dir, bound.id))
    requires safe ==> BackEvaluates(storage.View(), q.rec, q.ctx, q.start, q.el, true, bound.id, es[j])
    requires safe ==> Project(storage.View(), q, before) == Some(results)
    ensures safe ==>
              r == Project(storage.View(), q, before +
                     if ReverseKeeps(storage.View(), q.rec, q.ctx, q.start, q.el, true, bound.id, es[j])
                     then [Pair(storage.View().nodes[Behind(q.el.rel.dir, es[j], bound.id)], es[j])] else [])
  {
    hide MemoryStorage.Valid, NodeEvaluates, RelEvaluates, Contribution, Project, NodeHolds, RelHolds;
    var e := es[j];
    var m := ReverseEdge(storage, q.rec, q.ctx, q.start, q.el, true, bound.id, e);
    assert before + [] == before;
    if m.None? {
      return None;
    }
    if !m.value {
      return Some(results);
    }
    BackAgain(storage, q.el.rel.dir, bound, es, j);
    var from := storage.GetNode(Behind(q.el.rel.dir, e, bound.id)).value;
    var row := PairRow(q.rec, q.start, q.el, from, e, bound);
    r := Collect(q, row, results, storage.View(), before, Pair(from, e), safe);
  }

  // Taking the edge forward from the node behind it leads to the bound node.
  lemma BackAgain(storage: MemoryStorage, dir: Direction, bound: Node, es: seq<Edge>, j: nat)
    requires storage.Valid() && LiveNode(storage.View(), bound) && j < |es|
    requires es == EdgesOf(storage.View(), ReverseCandidates(storage.View(), dir, bound.id))
    requires Behind(dir, es[j], bound.id) in storage.nodes
    ensures var from := storage.nodes[Behind(dir, es[j], bound.id)];
            Far(dir, es[j], from.id) == bound.id
  {
    var g := storage.View();
    assert GraphOk(g);
    assert multiset(es)[es[j]] > 0;
    ReverseCandidateCount(g, dir, bound.id, es[j]);
  }

  // The bound far node, when the walk is reversed.
  function BoundFarNode(q: Query): Option<Node> {
    var v := q.el.node.variable;
    if v.Some? && v.value in q.rec && q.rec[v.value].NodeVal? && StartIsFree(q.rec, q.start)
    then Some(q.rec[v.value].node) else None
  }

  // `eval_pattern_comprehension` on one hop: the values are those of the walk
  // that runs, and as a multiset those of the forward walk unless the walk was
  // reversed and the far node's pattern depends on the start node there.
  method EvalComprehensionHop(storage: MemoryStorage, q: Query) returns (r: Option<seq<Value>>, ghost nodes: seq<Node>)
    requires storage.Valid()
    requires q.el.node.variable.Some? && q.el.node.variable.value in q.rec && q.rec[q.el.node.variable.value].NodeVal? ==>
               LiveNode(storage.View(), q.rec[q.el.node.variable.value].node)
    ensures Evaluable(storage.View(), q.rec, q.ctx, q.start, q.el, true) && BoundFarNode(q).Some? ==>
              r == Project(storage.View(), q, ReversePairs(storage.View(), q.rec, q.ctx, q.start, q.el, true, BoundFarNode(q).value))
    ensures Evaluable(storage.View(), q.rec, q.ctx, q.start, q.el, true)
            && (BoundFarNode(q).Some? ==> TerminalAgrees(storage.View(), q.rec, q.ctx, q.start, q.el, true, BoundFarNode(q).value)) ==>
              var forth := Project(storage.View(), q,
                ForwardPairs(storage.View(), q.rec, q.ctx, q.start, q.el, true, WantOf(q.rec, q.el.node), nodes));
              && Enumerates(nodes, StartSet(storage.View(), q.rec, q.ctx, q.start))
              && (r.Some? <==> forth.Some?)
              && (r.Some? ==> multiset(r.value) == multiset(forth.value))
    ensures Evaluable(storage.View(), q.rec, q.ctx, q.start, q.el, true) ==>
              var back := && q.el.node.variable.Some? && q.el.node.variable.value in q.rec && q.rec[q.el.node.variable.value].NodeVal?
                          && !(q.start.variable.Some? && q.start.variable.value in q.rec);
              && (r.None? <==> exists x :: Breaks(storage.View(), q, back, x))
              && (r.Some? ==> Answers(storage.View(), q, back, r.value))
  {
    hide MemoryStorage.Valid, NodeEvaluates, RelEvaluates, ForwardPairs, ReversePairs, Project, TerminalAgrees, Evaluable,
         FindsHits, Breaks, Answers;
    StorageIsOk(storage);
    var startIsBound := q.start.variable.Some? && q.start.variable.value in q.rec;
    if q.el.node.variable.Some? && q.el.node.variable.value in q.rec && q.rec[q.el.node.variable.value].NodeVal?
       && !startIsBound
    {
      var bound := q.rec[q.el.node.variable.value].node;
      r := ComprehensionReverse(storage, q, bound);
      nodes := SomeEnumeration(StartSet(storage.View(), q.rec, q.ctx, q.start));
      if TerminalAgrees(storage.View(), q.rec, q.ctx, q.start, q.el, true, bound) {
        ComprehensionReverses(storage.View(), q, bound, nodes);
      }
      BackwardFinds(storage.View(), q, bound);
      ProjectMeans(storage.View(), q, true, ReversePairs(storage.View(), q.rec, q.ctx, q.start, q.el, true, bound));
    } else {
      r, nodes := ComprehensionForward(storage, q);
      if Evaluable(storage.View(), q.rec, q.ctx, q.start, q.el, true) {
        ForwardFinds(storage.View(), q, nodes);
        ProjectMeans(storage.View(), q, false,
                     ForwardPairs(storage.View(), q.rec, q.ctx, q.start, q.el, true, WantOf(q.rec, q.el.node), nodes));
      }
    }
  }

  // A pattern whose walks differ: forward, `a` is in scope when the far node is
  // checked; backward it is not.
  lemma DependentTerminalDiffers(ctx: Context)
    ensures var a := Node(0, [], map["x" := Int(1)]);
            var b := Node(1, [], map["x" := Int(1)]);
            var e := Edge(0, "R", 0, 1, map[]);
            var g := Graph(map[0 := a, 1 := b], map[0 := e], 2, 1);
            var start := NodePattern(Some("a"), [], None);
            var el := Element(RelPattern(None, [], Outgoing, None),
                              NodePattern(Some("b"), [], Some([Entry(Identifier("x"), Property(Variable("a"), "x"))])));
            var rec := map["b" := NodeVal(b)];
            && GraphOk(g) && LiveNode(g, b)
            && ForwardKeeps(g, rec, ctx, start, el, true, OnlyNode(1), a, e)
            && ReversePairs(g, rec, ctx, start, el, true, b) == []
  {
    var a := Node(0, [], map["x" := Int(1)]);
    var b := Node(1, [], map["x" := Int(1)]);
    var entries := [Entry(Identifier("x"), Property(Variable("a"), "x"))];
    assert entries[1..] == [];
    var inline := Inline(entries);
    assert inline == [("x", Property(Variable("a"), "x"))];
    var rec: Record := map["b" := NodeVal(b)];
    var scoped := rec["a" := NodeVal(a)];
    assert Eval(Variable("a"), rec, ctx) == Some(Null);
    assert Eval(Variable("a"), scoped, ctx) == Some(NodeVal(a));
    assert Eval(inline[0].1, rec, ctx) == Some(Null);
    assert Eval(inline[0].1, scoped, ctx) == Some(Integer(1));
    assert AllEqual(b.props, inline, scoped, ctx);
    assert !AllEqual(b.props, inline, rec, ctx);
    assert Inline([]) == [];
  }
}
