// Planning and executing one MATCH chain, end to end.

module MatchQueries {
  import opened GraphTypes
  import opened Sequences
  import opened AbstractGraph
  import opened MemoryStorages
  import opened Expressions
  import opened Planner
  import opened MatchExecution
  import opened MatchChain
  import opened StartScans

  // --- The whole query ---

  lemma {:induction false} ChainScan(part: nat, start: NodePattern, elements: seq<Element>, k: nat)
    requires k <= |elements|
    ensures ScanOf(ChainPlan(part, start, elements, k))
         == ScanNodes(FirstLabel(start), Inline(EntriesOf(start.props)), StartVar(part, start, elements))
    decreases k
  {
    if k == 0 {
      LabelsScan(ScanNodes(FirstLabel(start), Inline(EntriesOf(start.props)), StartVar(part, start, elements)),
                 StartVar(part, start, elements), MoreLabels(start));
    } else {
      var p := ChainPlan(part, start, elements, k - 1);
      var el, rv, dv := elements[k - 1], RelVar(part, elements, k - 1), DstVar(part, elements, k - 1);
      var expanded := Expand(p, SrcVar(part, start, elements, k - 1), rv, dv, el.rel.relTypes, el.rel.dir);
      var relInline := Inline(EntriesOf(el.rel.props));
      var related := if rv.Some? then WithProps(expanded, rv.value, relInline) else expanded;
      ChainScan(part, start, elements, k - 1);
      if rv.Some? {
        PropsScan(expanded, rv.value, relInline);
      }
      LabelsScan(related, dv, el.node.labels);
      PropsScan(WithLabels(related, dv, el.node.labels), dv, Inline(EntriesOf(el.node.props)));
    }
  }

  lemma {:induction false} LabelsScan(p: Plan, variable: string, labels: seq<string>)
    ensures ScanOf(WithLabels(p, variable, labels)) == ScanOf(p)
    decreases |labels|
  {
    if labels != [] {
      LabelsScan(p, variable, labels[..|labels| - 1]);
    }
  }

  lemma {:induction false} PropsScan(p: Plan, variable: string, props: InlineProps)
    ensures ScanOf(WithProps(p, variable, props)) == ScanOf(p)
    decreases |props|
  {
    if props != [] {
      PropsScan(p, variable, props[..|props| - 1]);
    }
  }

  // The rows of a multiset of matches: where the start lookup agrees with the
  // pattern, of exactly the satisfying assignments, once each unless an
  // undirected hop crosses a self-loop.
  ghost predicate AnswersPattern(g: Graph, ctx: Context, part: nat, start: NodePattern, elements: seq<Element>, rows: seq<Record>) {
    exists ms :: AllShaped(ms, |elements|) && rows == RowsOf(part, start, elements, |elements|, ms)
      && (ProbeAgrees(g, ctx, start) ==> CountsMatches(g, ctx, start, elements, ms))
  }

  ghost predicate CountsMatches(g: Graph, ctx: Context, start: NodePattern, elements: seq<Element>, ms: seq<Match>) {
    forall m :: multiset(ms)[m] == if Satisfies(g, ctx, start, elements, m) then Copies(elements, m, |elements|) else 0
  }

  // Plan the chain and run the plan.
  method MatchPattern(storage: MemoryStorage, ctx: Context, part: nat, start: NodePattern, elements: seq<Element>)
    returns (rows: Option<seq<Record>>)
    requires storage.Valid()
    requires HopNamesDiffer(part, elements) && ConstantProps(elements) && ConstantInline(Inline(EntriesOf(start.props)))
    ensures rows.Some? && AnswersPattern(storage.View(), ctx, part, start, elements, rows.value)
  {
    hide MemoryStorage.Valid, RowsOf, Run, ChainPlan, ScanFinds, HopNamesDiffer, ConstantProps, ProbeAgrees;
    ghost var g := storage.View();
    StorageIsOk(storage);
    var p := PlanMatchScan(part, start, elements);
    ChainScan(part, start, elements, |elements|);
    ghost var scanned;
    rows, scanned := Execute(storage, ctx, p);
    ScanIsFaithful(g, ctx, start, scanned);
    ChainPlanMatches(g, ctx, part, start, elements, |elements|, scanned.value);
    ghost var ms := MatchesAfter(g, ctx, part, start, elements, |elements|, scanned.value);
    forall m | ProbeAgrees(g, ctx, start)
      ensures multiset(ms)[m] == if Satisfies(g, ctx, start, elements, m) then Copies(elements, m, |elements|) else 0
    {
      CountOf(g, ctx, part, start, elements, scanned.value, m);
    }
    assert AllShaped(ms, |elements|);
  }

  lemma CountOf(g: Graph, ctx: Context, part: nat, start: NodePattern, elements: seq<Element>, scanned: seq<Node>, m: Match)
    requires GraphOk(g) && ScanFinds(g, ctx, start, scanned)
    ensures multiset(MatchesAfter(g, ctx, part, start, elements, |elements|, scanned))[m] ==
            if Satisfies(g, ctx, start, elements, m) then Copies(elements, m, |elements|) else 0
  {
    var ms := MatchesAfter(g, ctx, part, start, elements, |elements|, scanned);
    if Shaped(m, |elements|) {
      MatchesExact(g, ctx, part, start, elements, |elements|, scanned, m);
    } else {
      assert m !in ms;
    }
  }

  // --- The row shows the assignment ---

  ghost predicate RowShows(part: nat, start: NodePattern, elements: seq<Element>, k: nat, m: Match, row: Record)
    requires k <= |elements| && Shaped(m, k)
  {
    && (StartVar(part, start, elements) in row && row[StartVar(part, start, elements)] == NodeVal(m.nodes[0]))
    && forall i :: 0 <= i < k ==>
         && (DstVar(part, elements, i) in row && row[DstVar(part, elements, i)] == NodeVal(m.nodes[i + 1]))
         && (RelVar(part, elements, i).Some? ==>
              RelVar(part, elements, i).value in row && row[RelVar(part, elements, i).value] == RelVal(m.edges[i]))
  }

  lemma {:induction false} VarsMembers(part: nat, start: NodePattern, elements: seq<Element>, k: nat)
    requires k <= |elements|
    ensures StartVar(part, start, elements) in ChainVars(part, start, elements, k)
    ensures forall i :: 0 <= i < k ==> DstVar(part, elements, i) in ChainVars(part, start, elements, k)
    ensures forall i :: 0 <= i < k && RelVar(part, elements, i).Some? ==>
              RelVar(part, elements, i).value in ChainVars(part, start, elements, k)
    decreases k
  {
    if k > 0 {
      VarsMembers(part, start, elements, k - 1);
    }
  }

  lemma NoDupSplit<T>(a: seq<T>, b: seq<T>)
    requires NoDup(a + b)
    ensures NoDup(a) && NoDup(b) && forall x :: x in a ==> x !in b
  {
    var s := a + b;
    assert forall i :: 0 <= i < |a| ==> s[i] == a[i];
    assert forall i :: 0 <= i < |b| ==> s[|a| + i] == b[i];
  }

  // When the chain's variables are distinct, a row binds each of them to its
  // own part of the match.
  lemma {:induction false} RowsShowMatches(part: nat, start: NodePattern, elements: seq<Element>, k: nat, m: Match)
    requires k <= |elements| && Shaped(m, k) && NoDup(ChainVars(part, start, elements, k))
    ensures RowShows(part, start, elements, k, m, RowOf(part, start, elements, k, m))
    decreases k
  {
    if k > 0 {
      hide ChainVars, RelVar, DstVar, StartVar;
      FreshNames(part, start, elements, k);
      VarsMembers(part, start, elements, k - 1);
      RowsShowMatches(part, start, elements, k - 1, InitMatch(m));
      ShowsStep(part, start, elements, k, m, ChainVars(part, start, elements, k - 1));
    }
  }

  lemma ShowsStep(part: nat, start: NodePattern, elements: seq<Element>, k: nat, m: Match, prev: seq<string>)
    requires 0 < k <= |elements| && Shaped(m, k)
    requires RowShows(part, start, elements, k - 1, InitMatch(m), RowOf(part, start, elements, k - 1, InitMatch(m)))
    requires StartVar(part, start, elements) in prev
    requires forall i :: 0 <= i < k - 1 ==> DstVar(part, elements, i) in prev
    requires forall i :: 0 <= i < k - 1 && RelVar(part, elements, i).Some? ==> RelVar(part, elements, i).value in prev
    requires DstVar(part, elements, k - 1) !in prev
    requires RelVar(part, elements, k - 1).Some? ==>
               RelVar(part, elements, k - 1).value !in prev
               && RelVar(part, elements, k - 1).value != DstVar(part, elements, k - 1)
    ensures RowShows(part, start, elements, k, m, RowOf(part, start, elements, k, m))
  {
    hide RelVar, DstVar, StartVar;
  }

  lemma FreshNames(part: nat, start: NodePattern, elements: seq<Element>, k: nat)
    requires 0 < k <= |elements| && NoDup(ChainVars(part, start, elements, k))
    ensures NoDup(ChainVars(part, start, elements, k - 1))
    ensures DstVar(part, elements, k - 1) !in ChainVars(part, start, elements, k - 1)
    ensures RelVar(part, elements, k - 1).Some? ==>
              RelVar(part, elements, k - 1).value !in ChainVars(part, start, elements, k - 1)
              && RelVar(part, elements, k - 1).value != DstVar(part, elements, k - 1)
  {
    var prev := ChainVars(part, start, elements, k - 1);
    var rv := if RelVar(part, elements, k - 1).Some? then [RelVar(part, elements, k - 1).value] else [];
    var dv := [DstVar(part, elements, k - 1)];
    assert ChainVars(part, start, elements, k) == (prev + rv) + dv;
    NoDupSplit(prev + rv, dv);
    NoDupSplit(prev, rv);
    assert forall x :: x in prev ==> x in prev + rv;
    assert forall x :: x in rv ==> x in prev + rv;
    assert DstVar(part, elements, k - 1) in dv;
    assert RelVar(part, elements, k - 1).Some? ==> RelVar(part, elements, k - 1).value in rv;
  }
}
