// What MERGE of a chain does to a row: the walks it matches, relationship by
// relationship, and what it makes when there is none.

module MergedChains {
  import opened GraphTypes
  import opened Sequences
  import opened AbstractGraph
  import opened Trails
  import opened Expressions
  import opened Planner
  import opened CreateClauses
  import opened ChainMerge
  import opened MergeIdempotence
  import opened CreatedPaths

  // --- One step ---

  // The entity has the labels and, under `==`, the properties asked for.
  ghost predicate Carries(props: Props, required: Props) {
    forall k :: k in required ==> k in props && PropEq(props[k], required[k])
  }

  // The candidate `c` is taken over the edge `e` to the candidate `d`.
  ghost predicate StepTo(g: Graph, el: Element, c: Candidate, ctx: Context, e: Edge, d: Candidate) {
    && e.id in g.edges && g.edges[e.id] == e && d.at in g.nodes && Joins(el.rel.dir, e, c.at, d.at)
    && (el.rel.relTypes == [] || e.relType in el.rel.relTypes)
    && (exists props :: Resolves(EntriesOf(el.rel.props), c.rec, ctx, props) && Carries(e.props, props))
    && (exists props :: Resolves(EntriesOf(el.node.props), c.rec, ctx, props) && Carries(g.nodes[d.at].props, props))
    && (forall l :: l in el.node.labels ==> l in g.nodes[d.at].labels)
    && (el.node.variable.Some? && el.node.variable.value in c.rec && c.rec[el.node.variable.value].NodeVal? ==>
          c.rec[el.node.variable.value].node.id == d.at)
    && StepShows(g, el, c.rec, e, d)
  }

  // The row gets the relationship and the node under their names.
  ghost predicate StepShows(g: Graph, el: Element, rec: Record, e: Edge, d: Candidate)
    requires d.at in g.nodes
  {
    var (r, n) := (el.rel.variable, el.node.variable);
    && (n.Some? ==> n.value in d.rec && d.rec[n.value] == NodeVal(g.nodes[d.at]))
    && (r.Some? && r != n ==> r.value in d.rec && d.rec[r.value] == RelVal(e))
    && SameBut(rec, d.rec, (if r.Some? then {r.value} else {}) + if n.Some? then {n.value} else {})
  }

  lemma {:induction false} ResolvedOnce(entries: seq<Entry>, rec: Record, ctx: Context, a: Props, b: Props)
    requires Resolves(entries, rec, ctx, a) && Resolves(entries, rec, ctx, b)
    ensures a == b
  {
    forall key | key in a || key in b ensures key in a && key in b && a[key] == b[key] {
      var i :| 0 <= i < |entries| && NamesKey(entries, i, key);
      var last := LastNamed(entries, i, key);
      assert NamesLast(entries, last, key);
    }
  }

  lemma LastNamed(entries: seq<Entry>, i: nat, key: string) returns (last: nat)
    requires i < |entries| && NamesKey(entries, i, key)
    ensures last < |entries| && NamesLast(entries, last, key)
  {
    last := i;
    for j := i + 1 to |entries|
      invariant i <= last < j && NamesKey(entries, last, key)
      invariant forall k :: last < k < j ==> !NamesKey(entries, k, key)
    {
      if NamesKey(entries, j, key) {
        last := j;
      }
    }
  }

  lemma ShowsOnly(g: Graph, el: Element, c: Candidate, e: Edge, d: Candidate)
    requires d.at in g.nodes && d.at == Far(el.rel.dir, e, c.at)
    ensures StepShows(g, el, c.rec, e, d) <==> d == Advanced(g, c.rec, el, c.at, e)
  {
    var built := Advanced(g, c.rec, el, c.at, e);
    if StepShows(g, el, c.rec, e, d) {
      forall col: string ensures (col in d.rec <==> col in built.rec) && (col in d.rec ==> d.rec[col] == built.rec[col]) {}
      assert d.rec == built.rec;
    }
  }

  lemma StepIs(g: Graph, el: Element, c: Candidate, ctx: Context, relProps: Props, nodeProps: Props, e: Edge, d: Candidate)
    requires Resolves(EntriesOf(el.rel.props), c.rec, ctx, relProps) && Resolves(EntriesOf(el.node.props), c.rec, ctx, nodeProps)
    ensures StepTo(g, el, c, ctx, e, d) <==>
              && e.id in g.edges && g.edges[e.id] == e && Leaves(el.rel.dir, e, c.at)
              && Passes(g, el, c.at, BoundId(c.rec, el.node.variable), relProps, nodeProps, e)
              && d == Advanced(g, c.rec, el, c.at, e)
  {
    hide Resolves, StepShows, Advanced, Leaves, Far, Joins;
    JoinsMeans(el.rel.dir, e, c.at, d.at);
    forall props | Resolves(EntriesOf(el.rel.props), c.rec, ctx, props) ensures props == relProps {
      ResolvedOnce(EntriesOf(el.rel.props), c.rec, ctx, props, relProps);
    }
    forall props | Resolves(EntriesOf(el.node.props), c.rec, ctx, props) ensures props == nodeProps {
      ResolvedOnce(EntriesOf(el.node.props), c.rec, ctx, props, nodeProps);
    }
    if d.at in g.nodes && d.at == Far(el.rel.dir, e, c.at) {
      ShowsOnly(g, el, c, e, d);
    }
    if Passes(g, el, c.at, BoundId(c.rec, el.node.variable), relProps, nodeProps, e) && d == Advanced(g, c.rec, el, c.at, e) {
      AdvancesTo(g, c.rec, el, c.at, e);
    }
  }

  lemma AdvancesTo(g: Graph, rec: Record, el: Element, prev: NodeId, e: Edge)
    requires Far(el.rel.dir, e, prev) in g.nodes
    ensures Advanced(g, rec, el, prev, e).at == Far(el.rel.dir, e, prev)
  {
  }

  // An expansion gives the candidates one step away, and no other.
  lemma ExpandedMeans(g: Graph, el: Element, c: Candidate, ctx: Context)
    requires GraphOk(g) && Expanded(g, el, c, ctx).Some?
    ensures forall d :: d in Expanded(g, el, c, ctx).value <==> exists e :: StepTo(g, el, c, ctx, e, d)
  {
    hide Resolves, StepTo, Advanced, Passes, EdgesFor, Through, GraphOk;
    var (relProps, nodeProps) := (PatternProps(el.rel.props, c.rec, ctx).value, PatternProps(el.node.props, c.rec, ctx).value);
    ResolvedMeans(EntriesOf(el.rel.props), c.rec, ctx);
    ResolvedMeans(EntriesOf(el.node.props), c.rec, ctx);
    var bound := BoundId(c.rec, el.node.variable);
    var es := EdgesFor(g, el.rel, c.at, bound);
    forall d ensures d in Expanded(g, el, c, ctx).value <==> exists e :: StepTo(g, el, c, ctx, e, d) {
      if d in Expanded(g, el, c, ctx).value {
        var e := ThroughOnly(g, el, c, relProps, nodeProps, es, d);
        EdgesForOnly(g, el.rel, c.at, bound, e);
        StepIs(g, el, c, ctx, relProps, nodeProps, e, d);
      }
      if e :| StepTo(g, el, c, ctx, e, d) {
        StepIs(g, el, c, ctx, relProps, nodeProps, e, d);
        PassesBound(g, el, c.at, bound, relProps, nodeProps, e);
        EdgesForHas(g, el.rel, c.at, bound, e);
        ThroughHas(g, el, c, relProps, nodeProps, es, e);
      }
    }
  }

  lemma PassesBound(g: Graph, el: Element, prev: NodeId, bound: Option<NodeId>, relProps: Props, nodeProps: Props, e: Edge)
    requires Passes(g, el, prev, bound, relProps, nodeProps, e)
    ensures TypeOk(el.rel.relTypes, e.relType) && (bound.Some? ==> bound.value == Far(el.rel.dir, e, prev))
  {
  }

  // --- Whole walks ---

  // Where a walk may start: at the node the row holds, if it fits, or else at a
  // node found.
  ghost predicate StartsWith(rec: Record, start: NodePattern, ctx: Context, found: seq<Node>, c: Candidate) {
    if start.variable.Some? && start.variable.value in rec && rec[start.variable.value].NodeVal? then
      var n := rec[start.variable.value].node;
      && c == Candidate(rec, n.id) && (forall l :: l in start.labels ==> l in n.labels)
      && exists props :: Resolves(EntriesOf(start.props), rec, ctx, props) && Carries(n.props, props)
    else
      exists n :: n in found && c.at == n.id && StartShows(rec, start, n, c.rec)
  }

  ghost predicate StartShows(rec: Record, start: NodePattern, n: Node, row: Record) {
    && (start.variable.Some? ==> start.variable.value in row && row[start.variable.value] == NodeVal(n))
    && SameBut(rec, row, if start.variable.Some? then {start.variable.value} else {})
  }

  ghost predicate Stepwise(g: Graph, elements: seq<Element>, ctx: Context, trace: seq<Candidate>) {
    |trace| == |elements| + 1 && forall i :: 0 <= i < |elements| ==> StepAt(g, elements, ctx, trace, i)
  }

  ghost predicate StepAt(g: Graph, elements: seq<Element>, ctx: Context, trace: seq<Candidate>, i: nat)
    requires i < |elements| && |trace| == |elements| + 1
  {
    IsStep(g, elements[i], ctx, trace[i], trace[i + 1])
  }

  ghost predicate IsStep(g: Graph, el: Element, ctx: Context, c: Candidate, d: Candidate) {
    exists e :: StepTo(g, el, c, ctx, e, d)
  }

  ghost predicate Reaches(g: Graph, rec: Record, start: NodePattern, elements: seq<Element>, ctx: Context, found: seq<Node>, d: Candidate) {
    exists trace :: Stepwise(g, elements, ctx, trace) && StartsWith(rec, start, ctx, found, trace[0]) && Last(trace) == d
  }

  lemma SeedsMean(rec: Record, start: NodePattern, ctx: Context, found: seq<Node>)
    requires Seeds(rec, start, ctx, found).Some?
    ensures forall c :: c in Seeds(rec, start, ctx, found).value <==> StartsWith(rec, start, ctx, found, c)
  {
    hide Resolves;
    ResolvedMeans(EntriesOf(start.props), rec, ctx);
    var props := PatternProps(start.props, rec, ctx).value;
    forall p | Resolves(EntriesOf(start.props), rec, ctx, p) ensures p == props {
      ResolvedOnce(EntriesOf(start.props), rec, ctx, p, props);
    }
    var seeds := Seeds(rec, start, ctx, found).value;
    if !BoundNode(rec, start.variable) {
      forall c ensures c in seeds <==> StartsWith(rec, start, ctx, found, c) {
        if c in seeds {
          var i :| 0 <= i < |seeds| && seeds[i] == c;
          assert found[i] in found;
        }
        if StartsWith(rec, start, ctx, found, c) {
          StartIsSeed(rec, start, ctx, found, c);
        }
      }
    }
  }

  lemma StartIsSeed(rec: Record, start: NodePattern, ctx: Context, found: seq<Node>, c: Candidate)
    requires !BoundNode(rec, start.variable) && StartsWith(rec, start, ctx, found, c)
    ensures c in Started(rec, start, found)
  {
    var n :| n in found && c.at == n.id && StartShows(rec, start, n, c.rec);
    var i :| 0 <= i < |found| && found[i] == n;
    var built := BindIf(rec, start.variable, NodeVal(n));
    forall col: string ensures (col in c.rec <==> col in built) && (col in built ==> c.rec[col] == built[col]) {}
    assert c.rec == built;
    assert Started(rec, start, found)[i] == c;
  }

  lemma {:induction false} ExpandedAllMeans(g: Graph, el: Element, cs: seq<Candidate>, ctx: Context, d: Candidate)
    requires GraphOk(g) && ExpandedAll(g, el, cs, ctx).Some?
    ensures d in ExpandedAll(g, el, cs, ctx).value <==> exists c, e :: c in cs && StepTo(g, el, c, ctx, e, d)
    decreases |cs|
  {
    hide Expanded, StepTo, GraphOk;
    if cs != [] {
      ExpandedAllMeans(g, el, Init(cs), ctx, d);
      ExpandedMeans(g, el, Last(cs), ctx);
      assert forall c :: c in cs <==> c in Init(cs) || c == Last(cs) by {
        assert cs == Init(cs) + [Last(cs)];
      }
    }
  }

  lemma {:induction false} WalkedMeans(g: Graph, rec: Record, start: NodePattern, elements: seq<Element>, ctx: Context, found: seq<Node>,
                                       d: Candidate)
    requires GraphOk(g) && Matches(g, rec, start, elements, ctx, found).Some?
    ensures d in Matches(g, rec, start, elements, ctx, found).value <==> Reaches(g, rec, start, elements, ctx, found, d)
    decreases |elements|
  {
    hide StepTo, GraphOk, Seeds, ExpandedAll, StartsWith;
    if elements == [] {
      SeedsMean(rec, start, ctx, found);
      if d in Matches(g, rec, start, elements, ctx, found).value {
        assert Stepwise(g, elements, ctx, [d]) && Last([d]) == d;
      }
    } else {
      var (init, el) := (Init(elements), Last(elements));
      var before := Matches(g, rec, start, init, ctx, found).value;
      forall c ensures c in before <==> Reaches(g, rec, start, init, ctx, found, c) {
        WalkedMeans(g, rec, start, init, ctx, found, c);
      }
      if before != [] {
        ExpandedAllMeans(g, el, before, ctx, d);
      }
      ReachedByStep(g, rec, start, elements, ctx, found, d);
    }
  }

  // A walk is a shorter walk and a step.
  lemma ReachedByStep(g: Graph, rec: Record, start: NodePattern, elements: seq<Element>, ctx: Context, found: seq<Node>, d: Candidate)
    requires elements != []
    ensures Reaches(g, rec, start, elements, ctx, found, d) <==>
            exists c, e :: Reaches(g, rec, start, Init(elements), ctx, found, c) && StepTo(g, Last(elements), c, ctx, e, d)
  {
    hide StepTo, StartsWith;
    var init := Init(elements);
    if Reaches(g, rec, start, elements, ctx, found, d) {
      var trace :| Stepwise(g, elements, ctx, trace) && StartsWith(rec, start, ctx, found, trace[0]) && Last(trace) == d;
      var shorter := Init(trace);
      assert Stepwise(g, init, ctx, shorter) by {
        forall i | 0 <= i < |init| ensures StepAt(g, init, ctx, shorter, i) {
          assert StepAt(g, elements, ctx, trace, i) && init[i] == elements[i] && shorter[i] == trace[i] && shorter[i + 1] == trace[i + 1];
        }
      }
      assert StartsWith(rec, start, ctx, found, shorter[0]);
      var c := Last(shorter);
      assert Reaches(g, rec, start, init, ctx, found, c);
      assert StepAt(g, elements, ctx, trace, |init|);
      assert IsStep(g, Last(elements), ctx, c, d);
    }
    if c, e :| Reaches(g, rec, start, init, ctx, found, c) && StepTo(g, Last(elements), c, ctx, e, d) {
      var shorter :| Stepwise(g, init, ctx, shorter) && StartsWith(rec, start, ctx, found, shorter[0]) && Last(shorter) == c;
      var trace := shorter + [d];
      assert IsStep(g, Last(elements), ctx, c, d);
      forall i | 0 <= i < |elements| ensures StepAt(g, elements, ctx, trace, i) {
        if i < |init| {
          assert StepAt(g, init, ctx, shorter, i) && init[i] == elements[i] && shorter[i] == trace[i] && shorter[i + 1] == trace[i + 1];
        }
      }
      assert Stepwise(g, elements, ctx, trace) && Last(trace) == d;
    }
  }

  // --- Rows ---

  // A row that matches leaves the graph alone and gives the rows of its walks;
  // one that does not makes the path.
  ghost predicate RowMergedInto(g: Graph, h: Graph, rec: Record, start: NodePattern, elements: seq<Element>, ctx: Context,
                                found: seq<Node>, rows: seq<Record>)
  {
    if exists d :: Reaches(g, rec, start, elements, ctx, found, d) then
      && h == g && forall row :: row in rows <==> exists d :: Reaches(g, rec, start, elements, ctx, found, d) && d.rec == row
    else |rows| == 1 && exists ids :: Path(g, h, rec, start, elements, ctx, ids, rows[0])
  }

  lemma RowMeans(g: Graph, rec: Record, start: NodePattern, elements: seq<Element>, ctx: Context, found: seq<Node>)
    requires GraphOk(g) && RowChainMerged(g, rec, start, elements, ctx, found).1.Some?
    ensures var (h, rows) := RowChainMerged(g, rec, start, elements, ctx, found);
            GraphOk(h) && RowMergedInto(g, h, rec, start, elements, ctx, found, rows.value)
  {
    hide Matches, ChainPlaced, Path, Reaches, GraphOk;
    var (h, rows) := RowChainMerged(g, rec, start, elements, ctx, found);
    var ms := Matches(g, rec, start, elements, ctx, found).value;
    forall d ensures d in ms <==> Reaches(g, rec, start, elements, ctx, found, d) {
      WalkedMeans(g, rec, start, elements, ctx, found, d);
    }
    ChainPlacedGrows(g, rec, start, elements, ctx);
    if ms == [] {
      var ids := PathMeans(g, rec, start, elements, ctx);
      assert Path(g, h, rec, start, elements, ctx, ids, rows.value[0]);
    } else {
      assert ms[0] in ms;
      forall row ensures row in rows.value <==> exists d :: Reaches(g, rec, start, elements, ctx, found, d) && d.rec == row {
        if row in rows.value {
          var i :| 0 <= i < |ms| && RecordsOf(ms)[i] == row;
          assert ms[i] in ms;
        }
        if d :| Reaches(g, rec, start, elements, ctx, found, d) && d.rec == row {
          var i :| 0 <= i < |ms| && ms[i] == d;
          assert RecordsOf(ms)[i] == row;
        }
      }
    }
  }

  // The rows of a clause one after another, each on the graph the one before left.
  ghost predicate MergedAt(gs: seq<Graph>, recs: seq<Record>, start: NodePattern, elements: seq<Element>, ctx: Context,
                           found: seq<seq<Node>>, blocks: seq<seq<Record>>, i: nat)
    requires i < |recs| == |found| == |blocks| && |gs| == |recs| + 1
  {
    StartFound(gs[i], recs[i], start, ctx, found[i]) && RowMergedInto(gs[i], gs[i + 1], recs[i], start, elements, ctx, found[i], blocks[i])
  }

  lemma {:induction false} RunMeans(g: Graph, recs: seq<Record>, start: NodePattern, elements: seq<Element>, ctx: Context,
                                    found: seq<seq<Node>>)
    returns (gs: seq<Graph>, blocks: seq<seq<Record>>)
    requires GraphOk(g) && |found| == |recs| && StartsFound(g, recs, start, elements, ctx, found)
    requires ChainRun(g, recs, start, elements, ctx, found).1.Some?
    ensures var (h, rows) := ChainRun(g, recs, start, elements, ctx, found);
            && GraphOk(h) && |gs| == |recs| + 1 && |blocks| == |recs| && gs[0] == g && Last(gs) == h && rows.value == Flatten(blocks)
            && forall i :: 0 <= i < |recs| ==> MergedAt(gs, recs, start, elements, ctx, found, blocks, i)
    decreases |recs|
  {
    hide RowChainMerged, StartFound, RowMergedInto, GraphOk;
    if recs == [] {
      gs, blocks := [g], [];
    } else {
      var (k, done) := ChainRun(g, Init(recs), start, elements, ctx, Init(found));
      var before, past := RunMeans(g, Init(recs), start, elements, ctx, Init(found));
      RowMeans(k, Last(recs), start, elements, ctx, Last(found));
      var (h, rows) := RowChainMerged(k, Last(recs), start, elements, ctx, Last(found));
      gs, blocks := before + [h], past + [rows.value];
      assert Init(blocks) == past && Last(blocks) == rows.value;
      forall i | 0 <= i < |recs| ensures MergedAt(gs, recs, start, elements, ctx, found, blocks, i) {
        if i < |recs| - 1 {
          assert MergedAt(before, Init(recs), start, elements, ctx, Init(found), past, i);
        }
      }
    }
  }
}
