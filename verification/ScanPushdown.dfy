// WHERE equalities pushed into a scan keep the same nodes as filtering the
// original scan, for any tree of ANDs, under three-valued logic.

module ScanPushdown {
  import opened GraphTypes
  import opened Sequences
  import opened Floats
  import opened AbstractGraph
  import opened Expressions
  import opened Planner
  import opened MatchExecution

  // The nodes a scan returns, from its inline properties.
  ghost predicate ScanKeeps(n: Node, lab: Option<string>, inline: InlineProps, ctx: Context) {
    LabelMatches(n, lab) && KeyKeeps(n.props, ScanKeyOf(inline, ctx, map[]))
  }

  ghost predicate KeyKeeps(p: Props, key: ScanKey) {
    key.Probe? && HasPropsByKey(p, key.props)
  }

  // The stored value of a pushed pair is found by the index: identity.
  predicate PairHolds(p: Props, key: string, value: Expr, ctx: Context) {
    key in p && ToValue(p[key]) == ConstValue(value, ctx)
  }

  // It passes the filter: numeric comparison.
  predicate PairEqual(p: Props, key: string, value: Expr, ctx: Context) {
    key in p && ValuesEqual(ToValue(p[key]), ConstValue(value, ctx))
  }

  predicate PairExact(p: Props, key: string, value: Expr, ctx: Context) {
    PairEqual(p, key, value, ctx) <==> PairHolds(p, key, value, ctx)
  }

  ghost predicate AllHold(p: Props, inline: InlineProps, from: nat, ctx: Context) {
    forall i :: from <= i < |inline| ==> PairHolds(p, inline[i].0, inline[i].1, ctx)
  }

  ghost predicate AllEqual(p: Props, inline: InlineProps, from: nat, ctx: Context) {
    forall i :: from <= i < |inline| ==> PairEqual(p, inline[i].0, inline[i].1, ctx)
  }

  lemma {:induction false} KeyOfSnoc(inline: InlineProps, ctx: Context, acc: Props, key: string, value: Expr, p: Props)
    requires IsConstant(value) && !HasKey(inline, key) && key !in acc
    ensures KeyKeeps(p, ScanKeyOf(inline + [(key, value)], ctx, acc)) <==>
            KeyKeeps(p, ScanKeyOf(inline, ctx, acc)) && PairHolds(p, key, value, ctx)
    decreases |inline|
  {
    ConstantEval(value, map[], ctx);
    var more := inline + [(key, value)];
    if inline == [] {
      assert more == [(key, value)] && more[1..] == [];
      var scalar := AsScalar(ConstValue(value, ctx));
      if scalar.Some? {
        var acc2 := acc[key := scalar.value];
        assert HasPropsByKey(p, acc2) <==> HasPropsByKey(p, acc) && key in p && p[key] == scalar.value by {
          assert key in acc2 && forall k :: k in acc ==> k in acc2 && acc2[k] == acc[k];
        }
      }
      if key in p {
        ScalarRoundTrip(p[key], ConstValue(value, ctx));
      }
    } else {
      assert more[0] == inline[0] && more[1..] == inline[1..] + [(key, value)];
      var v := Eval(inline[0].1, map[], ctx);
      if v.Some? && AsScalar(v.value).Some? {
        assert inline[0].0 != key;
        assert forall i :: 0 <= i < |inline[1..]| ==> inline[1..][i] == inline[i + 1];
        KeyOfSnoc(inline[1..], ctx, acc[inline[0].0 := AsScalar(v.value).value], key, value, p);
      }
    }
  }

  lemma ValuesEqualSymmetric(a: Value, b: Value)
    ensures ValuesEqual(a, b) <==> ValuesEqual(b, a)
  {
    if a.StringVal? && b.StringVal? {
      CompareStringsEqual(a.s, b.s);
      CompareStringsEqual(b.s, a.s);
    }
  }

  function NodeRow(variable: string, n: Node): Record {
    map[variable := NodeVal(n)]
  }

  // What is pushed: a comparison of a property of the scanned node with a
  // constant, in either order.
  predicate IsPushed(p: Expr, variable: string, key: string, value: Expr) {
    p.Comparison? && p.op.Eq? && IsScanPushable(value) &&
    ((IsPropertyOf(p.left, variable) && p.left.key == key && p.right == value) ||
     (IsPropertyOf(p.right, variable) && p.right.key == key && p.left == value))
  }

  lemma PushedComparison(p: Expr, variable: string, key: string, value: Expr, n: Node, ctx: Context)
    requires IsPushed(p, variable, key, value)
    ensures Eval(p, NodeRow(variable, n), ctx).Some?
    ensures EvalsTrue(p, NodeRow(variable, n), ctx) <==> PairEqual(n.props, key, value, ctx)
  {
    var rec := NodeRow(variable, n);
    ConstantEval(value, rec, ctx);
    if IsPropertyOf(p.left, variable) && p.left.key == key && p.right == value {
      PropertyEval(p.left, variable, n, ctx);
    } else {
      PropertyEval(p.right, variable, n, ctx);
      ValuesEqualSymmetric(ConstValue(value, ctx), GetProperty(NodeVal(n), key));
    }
  }

  lemma PropertyEval(e: Expr, variable: string, n: Node, ctx: Context)
    requires IsPropertyOf(e, variable)
    ensures Eval(e, NodeRow(variable, n), ctx) == Some(GetProperty(NodeVal(n), e.key))
  {
    assert Eval(e.base, NodeRow(variable, n), ctx) == Some(NodeVal(n));
  }

  ghost predicate PairsExactFrom(p: Props, inline: InlineProps, from: nat, ctx: Context) {
    forall i :: from <= i < |inline| ==> PairExact(p, inline[i].0, inline[i].1, ctx)
  }

  predicate HoldsIfAny(e: Option<Expr>, rec: Record, ctx: Context) {
    e.Some? ==> EvalsTrue(e.value, rec, ctx)
  }

  predicate EvaluatesIfAny(e: Option<Expr>, rec: Record, ctx: Context) {
    e.Some? ==> Eval(e.value, rec, ctx).Some?
  }

  // The ways an extraction can go: both sides of an AND one after the other, a
  // pair pushed, or the whole predicate left over.
  lemma ExtractCases(p: Expr, variable: string, inline: InlineProps, remaining: Option<Expr>)
    ensures var (i2, r2) := Extract(p, variable, inline, remaining);
            || p.And?
            || (r2 == remaining && |i2| == |inline| + 1 && inline <= i2 && !HasKey(inline, i2[|inline|].0)
                && IsPushed(p, variable, i2[|inline|].0, i2[|inline|].1))
            || (i2 == inline && r2 == AppendRemaining(p, remaining))
  {
  }

  // Pushed pairs are added at the end, under keys not there before.
  lemma {:induction false} ExtractGrows(p: Expr, variable: string, inline: InlineProps, remaining: Option<Expr>)
    ensures var i2 := Extract(p, variable, inline, remaining).0;
            && inline <= i2
            && forall i :: |inline| <= i < |i2| ==> IsScanPushable(i2[i].1) && !HasKey(i2[..i], i2[i].0)
    decreases p
  {
    var i2 := Extract(p, variable, inline, remaining).0;
    ExtractCases(p, variable, inline, remaining);
    if p.And? {
      var (i1, r1) := Extract(p.l, variable, inline, remaining);
      ExtractGrows(p.l, variable, inline, remaining);
      ExtractGrows(p.r, variable, i1, r1);
      forall i | |inline| <= i < |i1| ensures IsScanPushable(i2[i].1) && !HasKey(i2[..i], i2[i].0) {
        assert i2[i] == i1[i] && i2[..i] == i1[..i];
      }
    } else if i2 != inline {
      assert i2[..|inline|] == inline;
    }
  }

  lemma AllSplit(p: Props, i1: InlineProps, i2: InlineProps, from: nat, ctx: Context)
    requires from <= |i1| && i1 <= i2
    ensures AllEqual(p, i2, from, ctx) <==> AllEqual(p, i1, from, ctx) && AllEqual(p, i2, |i1|, ctx)
    ensures AllHold(p, i2, from, ctx) <==> AllHold(p, i1, from, ctx) && AllHold(p, i2, |i1|, ctx)
  {
    hide PairEqual, PairHolds;
    assert forall i :: 0 <= i < |i1| ==> i1[i] == i2[i];
  }

  // What the filter asks for is that the pushed pairs compare equal and that
  // what remains holds.
  lemma {:induction false} FilterSplits(p: Expr, variable: string, inline: InlineProps, remaining: Option<Expr>,
                                        n: Node, ctx: Context)
    requires Eval(p, NodeRow(variable, n), ctx).Some? && EvaluatesIfAny(remaining, NodeRow(variable, n), ctx)
    ensures var (i2, r2) := Extract(p, variable, inline, remaining);
            var rec := NodeRow(variable, n);
            && EvaluatesIfAny(r2, rec, ctx)
            && (AllEqual(n.props, i2, |inline|, ctx) && HoldsIfAny(r2, rec, ctx) <==>
                HoldsIfAny(remaining, rec, ctx) && EvalsTrue(p, rec, ctx))
    decreases p
  {
    hide PairEqual;
    var rec := NodeRow(variable, n);
    var (i2, r2) := Extract(p, variable, inline, remaining);
    ExtractCases(p, variable, inline, remaining);
    if p.And? {
      var (i1, r1) := Extract(p.l, variable, inline, remaining);
      ExtractGrows(p.l, variable, inline, remaining);
      ExtractGrows(p.r, variable, i1, r1);
      FilterSplits(p.l, variable, inline, remaining, n, ctx);
      FilterSplits(p.r, variable, i1, r1, n, ctx);
      AllSplit(n.props, i1, i2, |inline|, ctx);
      AndIsTruthy(Eval(p.l, rec, ctx).value, Eval(p.r, rec, ctx).value);
    } else if i2 != inline {
      PushedComparison(p, variable, i2[|inline|].0, i2[|inline|].1, n, ctx);
    } else if remaining.Some? {
      AndIsTruthy(Eval(remaining.value, rec, ctx).value, Eval(p, rec, ctx).value);
    }
  }

  // What the lookup asks for is that the pushed pairs are identical, besides
  // what it asked for before.
  lemma {:induction false} LookupSplits(p: Expr, variable: string, inline: InlineProps, remaining: Option<Expr>,
                                        props: Props, ctx: Context)
    ensures var i2 := Extract(p, variable, inline, remaining).0;
            && (KeyKeeps(props, ScanKeyOf(i2, ctx, map[])) <==>
                KeyKeeps(props, ScanKeyOf(inline, ctx, map[])) && AllHold(props, i2, |inline|, ctx))
            && (ScanKeyOf(i2, ctx, map[]).ScanFails? <==> ScanKeyOf(inline, ctx, map[]).ScanFails?)
            && (ScanKeyOf(i2, ctx, map[]).Probe? <==>
                ScanKeyOf(inline, ctx, map[]).Probe? &&
                forall i :: |inline| <= i < |i2| ==> AsScalar(ConstValue(i2[i].1, ctx)).Some?)
    decreases p
  {
    hide KeyKeeps, ScanKeyOf, PairHolds, AsScalar, ConstValue;
    var i2 := Extract(p, variable, inline, remaining).0;
    ExtractCases(p, variable, inline, remaining);
    if p.And? {
      var (i1, r1) := Extract(p.l, variable, inline, remaining);
      ExtractGrows(p.l, variable, inline, remaining);
      ExtractGrows(p.r, variable, i1, r1);
      LookupSplits(p.l, variable, inline, remaining, props, ctx);
      LookupSplits(p.r, variable, i1, r1, props, ctx);
      AllSplit(props, i1, i2, |inline|, ctx);
      assert forall i :: 0 <= i < |i1| ==> i1[i] == i2[i];
    } else if i2 != inline {
      var (key, value) := i2[|inline|];
      assert i2 == inline + [(key, value)];
      KeyOfSnoc(inline, ctx, map[], key, value, props);
      SnocKind(inline, ctx, map[], key, value);
    }
  }

  // The invariant of the extraction, where comparison and identity agree on the
  // pushed pairs: what the scan enforces, together with what remains, is what
  // was enforced before together with the predicate.
  lemma ExtractSound(p: Expr, variable: string, inline: InlineProps, remaining: Option<Expr>, n: Node, ctx: Context)
    requires Eval(p, NodeRow(variable, n), ctx).Some? && EvaluatesIfAny(remaining, NodeRow(variable, n), ctx)
    requires PairsExactFrom(n.props, Extract(p, variable, inline, remaining).0, |inline|, ctx)
    ensures var (i2, r2) := Extract(p, variable, inline, remaining);
            var rec := NodeRow(variable, n);
            && EvaluatesIfAny(r2, rec, ctx)
            && (KeyKeeps(n.props, ScanKeyOf(i2, ctx, map[])) && HoldsIfAny(r2, rec, ctx) <==>
                KeyKeeps(n.props, ScanKeyOf(inline, ctx, map[])) && HoldsIfAny(remaining, rec, ctx) && EvalsTrue(p, rec, ctx))
  {
    hide KeyKeeps, ScanKeyOf, PairEqual, PairHolds, Extract, EvaluatesIfAny, HoldsIfAny, EvalsTrue;
    FilterSplits(p, variable, inline, remaining, n, ctx);
    LookupSplits(p, variable, inline, remaining, n.props, ctx);
    ExactMeansAlike(n.props, Extract(p, variable, inline, remaining).0, |inline|, ctx);
  }

  lemma ExactMeansAlike(p: Props, inline: InlineProps, from: nat, ctx: Context)
    requires PairsExactFrom(p, inline, from, ctx)
    ensures AllEqual(p, inline, from, ctx) <==> AllHold(p, inline, from, ctx)
  {
    hide PairEqual, PairHolds;
    assert forall i :: from <= i < |inline| ==> PairExact(p, inline[i].0, inline[i].1, ctx);
  }

  // --- Whole plans ---

  lemma {:induction false} FilterCount(rows: seq<Record>, condition: Expr, ctx: Context, r: Record)
    ensures FilterRows(rows, condition, ctx).Some? <==> forall i :: 0 <= i < |rows| ==> Eval(condition, rows[i], ctx).Some?
    ensures FilterRows(rows, condition, ctx).Some? ==>
              multiset(FilterRows(rows, condition, ctx).value)[r] ==
              if EvalsTrue(condition, r, ctx) then multiset(rows)[r] else 0
    decreases |rows|
  {
    hide Eval, IsTruthy;
    if rows != [] {
      assert rows == rows[..|rows| - 1] + [rows[|rows| - 1]];
      FilterCount(rows[..|rows| - 1], condition, ctx, r);
    }
  }

  lemma {:induction false} ScanRowsCount(variable: string, nodes: seq<Node>, n: Node)
    ensures multiset(ScanRows(variable, nodes))[NodeRow(variable, n)] == multiset(nodes)[n]
    decreases |nodes|
  {
    if nodes != [] {
      var before, l := nodes[..|nodes| - 1], nodes[|nodes| - 1];
      assert nodes == before + [l];
      assert ScanRows(variable, nodes) == ScanRows(variable, before) + [NodeRow(variable, l)];
      assert NodeRow(variable, l) == NodeRow(variable, n) <==> l == n by {
        assert NodeRow(variable, l)[variable] == NodeVal(l) && NodeRow(variable, n)[variable] == NodeVal(n);
      }
      ScanRowsCount(variable, before, n);
    }
  }

  lemma ScannedOnce(g: Graph, ctx: Context, lab: Option<string>, inline: InlineProps, nodes: seq<Node>, n: Node)
    requires ScanReturns(g, ctx, lab, inline, Some(nodes))
    ensures multiset(nodes)[n] ==
            if n in g.nodes.Values && ScanKeeps(n, lab, inline, ctx) then 1 else 0
  {
    NoDupMultiset(nodes, n);
    var key := ScanKeyOf(inline, ctx, map[]);
    if key.Probe? {
      assert n in nodes <==> n in IndexScan(g, lab, key.props);
    }
  }

  // Where the pushed plan and the filtered scan treat the node alike: a node
  // the scan returned before and the leftover keeps has pushed pairs that all
  // compare equal exactly when they are all identical.
  ghost predicate PushAgrees(n: Node, ctx: Context, lab: Option<string>, inline: InlineProps, variable: string, p: Expr) {
    var (i2, rem) := Extract(p, variable, inline, None);
    ScanKeeps(n, lab, inline, ctx) && HoldsIfAny(rem, NodeRow(variable, n), ctx) ==>
      (AllEqual(n.props, i2, |inline|, ctx) <==> AllHold(n.props, i2, |inline|, ctx))
  }

  // One node: it is kept by one plan exactly when by the other, if and only if
  // they agree on it.
  lemma NodeKept(n: Node, ctx: Context, lab: Option<string>, inline: InlineProps, variable: string, p: Expr)
    requires ScanKeeps(n, lab, inline, ctx) ==> Eval(p, NodeRow(variable, n), ctx).Some?
    ensures var (i2, rem) := Extract(p, variable, inline, None);
            var rec := NodeRow(variable, n);
            && (ScanKeeps(n, lab, i2, ctx) ==> EvaluatesIfAny(rem, rec, ctx))
            && (PushAgrees(n, ctx, lab, inline, variable, p) <==>
                (ScanKeeps(n, lab, i2, ctx) && HoldsIfAny(rem, rec, ctx) <==>
                 ScanKeeps(n, lab, inline, ctx) && EvalsTrue(p, rec, ctx)))
  {
    hide KeyKeeps, ScanKeyOf, AllHold, AllEqual, Extract, EvaluatesIfAny, HoldsIfAny, EvalsTrue;
    LookupSplits(p, variable, inline, None, n.props, ctx);
    if ScanKeeps(n, lab, inline, ctx) {
      NothingRemains(NodeRow(variable, n), ctx);
      FilterSplits(p, variable, inline, None, n, ctx);
    }
  }

  lemma NothingRemains(rec: Record, ctx: Context)
    ensures EvaluatesIfAny(None, rec, ctx) && HoldsIfAny(None, rec, ctx)
  {
  }

  lemma ScannedEvaluates(g: Graph, ctx: Context, lab: Option<string>, inline: InlineProps, variable: string, p: Expr,
                         scanned: seq<Node>, n: Node)
    requires ScanReturns(g, ctx, lab, inline, Some(scanned))
    requires FilterRows(ScanRows(variable, scanned), p, ctx).Some?
    requires n in g.nodes.Values && ScanKeeps(n, lab, inline, ctx)
    ensures Eval(p, NodeRow(variable, n), ctx).Some?
  {
    hide ScanReturns, Eval;
    ScannedOnce(g, ctx, lab, inline, scanned, n);
    assert n in scanned;
    var i :| 0 <= i < |scanned| && scanned[i] == n;
    var rows := ScanRows(variable, scanned);
    FilterCount(rows, p, ctx, rows[i]);
    assert rows[i] == NodeRow(variable, n);
  }

  // The rows of a scan followed by an optional filter.
  function Leftover(rows: seq<Record>, rem: Option<Expr>, ctx: Context): Option<seq<Record>> {
    if rem.None? then Some(rows) else FilterRows(rows, rem.value, ctx)
  }

  lemma LeftoverCount(rows: seq<Record>, rem: Option<Expr>, ctx: Context, r: Record)
    requires forall i :: 0 <= i < |rows| ==> EvaluatesIfAny(rem, rows[i], ctx)
    ensures Leftover(rows, rem, ctx).Some?
    ensures multiset(Leftover(rows, rem, ctx).value)[r] == if HoldsIfAny(rem, r, ctx) then multiset(rows)[r] else 0
  {
    if rem.Some? {
      FilterCount(rows, rem.value, ctx, r);
    }
  }

  // A row is returned equally often by both plans, unless it stands for a live
  // node they do not agree on.
  lemma SameCount(g: Graph, ctx: Context, lab: Option<string>, inline: InlineProps, variable: string, p: Expr,
                  scanned: seq<Node>, pushed: seq<Node>, n: Node)
    requires ScanReturns(g, ctx, lab, inline, Some(scanned))
    requires ScanReturns(g, ctx, lab, Extract(p, variable, inline, None).0, Some(pushed))
    requires FilterRows(ScanRows(variable, scanned), p, ctx).Some?
    ensures var r := NodeRow(variable, n);
            (n in g.nodes.Values ==> PushAgrees(n, ctx, lab, inline, variable, p)) <==>
            (if EvalsTrue(p, r, ctx) then multiset(ScanRows(variable, scanned))[r] else 0) ==
            (if HoldsIfAny(Extract(p, variable, inline, None).1, r, ctx) then multiset(ScanRows(variable, pushed))[r] else 0)
  {
    hide ScanReturns, ScanRows, FilterRows, ScanKeeps, EvalsTrue, HoldsIfAny, EvaluatesIfAny, Extract, PushAgrees;
    ScanRowsCount(variable, scanned, n);
    ScanRowsCount(variable, pushed, n);
    ScannedOnce(g, ctx, lab, inline, scanned, n);
    ScannedOnce(g, ctx, lab, Extract(p, variable, inline, None).0, pushed, n);
    if n in g.nodes.Values {
      if ScanKeeps(n, lab, inline, ctx) {
        ScannedEvaluates(g, ctx, lab, inline, variable, p, scanned, n);
      }
      NodeKept(n, ctx, lab, inline, variable, p);
    }
  }

  lemma LeftoverEvaluates(g: Graph, ctx: Context, lab: Option<string>, inline: InlineProps, variable: string, p: Expr,
                          scanned: seq<Node>, pushed: seq<Node>)
    requires ScanReturns(g, ctx, lab, inline, Some(scanned))
    requires ScanReturns(g, ctx, lab, Extract(p, variable, inline, None).0, Some(pushed))
    requires FilterRows(ScanRows(variable, scanned), p, ctx).Some?
    ensures forall i :: 0 <= i < |ScanRows(variable, pushed)| ==>
              EvaluatesIfAny(Extract(p, variable, inline, None).1, ScanRows(variable, pushed)[i], ctx)
  {
    hide ScanReturns, FilterRows, ScanKeeps, EvaluatesIfAny, Extract, PushAgrees;
    var (i2, rem) := Extract(p, variable, inline, None);
    forall i | 0 <= i < |ScanRows(variable, pushed)|
      ensures EvaluatesIfAny(rem, ScanRows(variable, pushed)[i], ctx)
    {
      var n := pushed[i];
      assert n in pushed && ScanRows(variable, pushed)[i] == NodeRow(variable, n);
      ScannedOnce(g, ctx, lab, i2, pushed, n);
      if ScanKeeps(n, lab, inline, ctx) {
        ScannedEvaluates(g, ctx, lab, inline, variable, p, scanned, n);
      }
      NodeKept(n, ctx, lab, inline, variable, p);
    }
  }

  // A scan followed by a filter, and the plan pushdown makes of it, on one graph.
  ghost predicate BothPlans(g: Graph, ctx: Context, lab: Option<string>, inline: InlineProps, variable: string,
                            p: Expr, scanned: Option<seq<Node>>, pushed: Option<seq<Node>>) {
    var scan := ScanNodes(lab, inline, variable);
    && ScanReturns(g, ctx, lab, inline, scanned)
    && ScanReturns(g, ctx, lab, ScanOf(PushWhereIntoScan(p, scan)).inline, pushed)
    && Run(g, ctx, Filter(scan, p), scanned).Some?
  }

  ghost predicate SameRows(g: Graph, ctx: Context, lab: Option<string>, inline: InlineProps, variable: string,
                           p: Expr, scanned: Option<seq<Node>>, pushed: Option<seq<Node>>) {
    var scan := ScanNodes(lab, inline, variable);
    var before, after := Run(g, ctx, Filter(scan, p), scanned), Run(g, ctx, PushWhereIntoScan(p, scan), pushed);
    before.Some? && after.Some? && multiset(before.value) == multiset(after.value)
  }

  lemma PlansRun(g: Graph, ctx: Context, lab: Option<string>, inline: InlineProps, variable: string,
                 p: Expr, scanned: Option<seq<Node>>, pushed: Option<seq<Node>>)
    ensures var scan := ScanNodes(lab, inline, variable);
            var (i2, rem) := Extract(p, variable, inline, None);
            && ScanOf(PushWhereIntoScan(p, scan)).inline == i2
            && Run(g, ctx, Filter(scan, p), scanned)
               == (if scanned.None? then None else FilterRows(ScanRows(variable, scanned.value), p, ctx))
            && (pushed.Some? ==>
                  Run(g, ctx, PushWhereIntoScan(p, scan), pushed) == Leftover(ScanRows(variable, pushed.value), rem, ctx))
  {
    hide FilterRows, ScanRows, Extract;
    var scan := ScanNodes(lab, inline, variable);
    var (i2, rem) := Extract(p, variable, inline, None);
    assert PushWhereIntoScan(p, scan) == if rem.None? then ScanNodes(lab, i2, variable)
                                         else Filter(ScanNodes(lab, i2, variable), rem.value);
    assert Run(g, ctx, scan, scanned) == if scanned.None? then None else Some(ScanRows(variable, scanned.value));
    assert Run(g, ctx, ScanNodes(lab, i2, variable), pushed)
        == if pushed.None? then None else Some(ScanRows(variable, pushed.value));
  }

  // Whatever the label, the inline properties and the predicate, as long as the
  // filter evaluates: the pushed plan does not fail, and it returns the same
  // rows exactly when every live node is one the plans agree on.
  lemma PushdownIsFaithful(g: Graph, ctx: Context, lab: Option<string>, inline: InlineProps, variable: string,
                           p: Expr, scanned: Option<seq<Node>>, pushed: Option<seq<Node>>)
    requires BothPlans(g, ctx, lab, inline, variable, p, scanned, pushed)
    ensures Run(g, ctx, PushWhereIntoScan(p, ScanNodes(lab, inline, variable)), pushed).Some?
    ensures SameRows(g, ctx, lab, inline, variable, p, scanned, pushed) <==>
            forall n :: n in g.nodes.Values ==> PushAgrees(n, ctx, lab, inline, variable, p)
  {
    hide ScanReturns, ScanRows, FilterRows, PushAgrees, EvalsTrue, HoldsIfAny, Run, ScanOf, PushWhereIntoScan, Extract;
    var scan := ScanNodes(lab, inline, variable);
    var (i2, rem) := Extract(p, variable, inline, None);
    PlansRun(g, ctx, lab, inline, variable, p, scanned, pushed);
    PushedScanSucceeds(g, ctx, lab, inline, variable, p, scanned, pushed);
    var rows, rows2 := ScanRows(variable, scanned.value), ScanRows(variable, pushed.value);
    PlansRun(g, ctx, lab, inline, variable, p, scanned, pushed);
    LeftoverEvaluates(g, ctx, lab, inline, variable, p, scanned.value, pushed.value);
    LeftoverCount(rows2, rem, ctx, map[]);
    var before, after := multiset(FilterRows(rows, p, ctx).value), multiset(Leftover(rows2, rem, ctx).value);
    forall n: Node
      ensures (n in g.nodes.Values ==> PushAgrees(n, ctx, lab, inline, variable, p)) <==>
              before[NodeRow(variable, n)] == after[NodeRow(variable, n)]
    {
      FilterCount(rows, p, ctx, NodeRow(variable, n));
      LeftoverCount(rows2, rem, ctx, NodeRow(variable, n));
      SameCount(g, ctx, lab, inline, variable, p, scanned.value, pushed.value, n);
    }
    if forall n :: n in g.nodes.Values ==> PushAgrees(n, ctx, lab, inline, variable, p) {
      forall r ensures before[r] == after[r] {
        if forall n: Node :: r != NodeRow(variable, n) {
          FilterCount(rows, p, ctx, r);
          LeftoverCount(rows2, rem, ctx, r);
          NotARow(variable, scanned.value, r);
          NotARow(variable, pushed.value, r);
        }
      }
    }
  }

  // So it returns the same rows when no node the scan returned holds a twin of
  // a pushed value.
  lemma PushdownPreserves(g: Graph, ctx: Context, lab: Option<string>, inline: InlineProps, variable: string,
                          p: Expr, scanned: Option<seq<Node>>, pushed: Option<seq<Node>>)
    requires BothPlans(g, ctx, lab, inline, variable, p, scanned, pushed)
    requires forall n :: n in g.nodes.Values && ScanKeeps(n, lab, inline, ctx) ==>
               PairsExactFrom(n.props, Extract(p, variable, inline, None).0, |inline|, ctx)
    ensures SameRows(g, ctx, lab, inline, variable, p, scanned, pushed)
  {
    hide BothPlans, SameRows, ScanKeeps, PairsExactFrom, HoldsIfAny, AllEqual, AllHold, Extract;
    PushdownIsFaithful(g, ctx, lab, inline, variable, p, scanned, pushed);
    forall n | n in g.nodes.Values ensures PushAgrees(n, ctx, lab, inline, variable, p) {
      if ScanKeeps(n, lab, inline, ctx) {
        ExactMeansAlike(n.props, Extract(p, variable, inline, None).0, |inline|, ctx);
      }
    }
  }

  lemma NotARow(variable: string, nodes: seq<Node>, r: Record)
    requires forall n :: r != NodeRow(variable, n)
    ensures multiset(ScanRows(variable, nodes))[r] == 0
  {
    var rows := ScanRows(variable, nodes);
    forall i | 0 <= i < |rows| ensures rows[i] != r {
      assert rows[i] == NodeRow(variable, nodes[i]);
    }
  }

  // A constant at the end cannot make the lookup fail, only make it pointless.
  lemma {:induction false} SnocKind(inline: InlineProps, ctx: Context, acc: Props, key: string, value: Expr)
    requires IsConstant(value)
    ensures ScanKeyOf(inline + [(key, value)], ctx, acc).ScanFails? <==> ScanKeyOf(inline, ctx, acc).ScanFails?
    ensures ScanKeyOf(inline + [(key, value)], ctx, acc).Probe? <==>
            ScanKeyOf(inline, ctx, acc).Probe? && AsScalar(ConstValue(value, ctx)).Some?
    decreases |inline|
  {
    ConstantEval(value, map[], ctx);
    var more := inline + [(key, value)];
    if inline == [] {
      assert more == [(key, value)] && more[1..] == [];
    } else {
      assert more[0] == inline[0] && more[1..] == inline[1..] + [(key, value)];
      var v := Eval(inline[0].1, map[], ctx);
      if v.Some? && AsScalar(v.value).Some? {
        SnocKind(inline[1..], ctx, acc[inline[0].0 := AsScalar(v.value).value], key, value);
      }
    }
  }

  lemma PushedScanSucceeds(g: Graph, ctx: Context, lab: Option<string>, inline: InlineProps, variable: string,
                           p: Expr, scanned: Option<seq<Node>>, pushed: Option<seq<Node>>)
    requires ScanReturns(g, ctx, lab, inline, scanned) && scanned.Some?
    requires ScanReturns(g, ctx, lab, Extract(p, variable, inline, None).0, pushed)
    ensures pushed.Some?
  {
    LookupSplits(p, variable, inline, None, map[], ctx);
  }

  // Sufficient without looking at the graph: no pushed value has a twin.
  lemma NoTwinsPushExactly(p: Props, inline: InlineProps, from: nat, ctx: Context)
    requires forall i :: from <= i < |inline| ==> !HasTwin(ConstValue(inline[i].1, ctx))
    ensures PairsExactFrom(p, inline, from, ctx)
  {
    forall i | from <= i < |inline| ensures PairExact(p, inline[i].0, inline[i].1, ctx) {
      TwinsExactly(ConstValue(inline[i].1, ctx));
    }
  }

  // --- On every graph ---

  // Pushing the predicate never changes the rows.
  ghost predicate AlwaysPushable(ctx: Context, lab: Option<string>, inline: InlineProps, variable: string, p: Expr) {
    forall g, scanned, pushed :: GraphOk(g) && BothPlans(g, ctx, lab, inline, variable, p, scanned, pushed)
      ==> SameRows(g, ctx, lab, inline, variable, p, scanned, pushed)
  }

  function OnlyNodeGraph(n: Node): Graph {
    Graph(map[n.id := n], map[], n.id + 1, 0)
  }

  lemma OneNodePlans(ctx: Context, lab: Option<string>, inline: InlineProps, variable: string, p: Expr, n: Node)
    returns (scanned: Option<seq<Node>>, pushed: Option<seq<Node>>)
    requires ScanKeeps(n, lab, inline, ctx) && Eval(p, NodeRow(variable, n), ctx).Some?
    ensures BothPlans(OnlyNodeGraph(n), ctx, lab, inline, variable, p, scanned, pushed)
  {
    hide Eval, Extract, FilterRows, Run, ScanOf, PushWhereIntoScan;
    var g := OnlyNodeGraph(n);
    var i2 := Extract(p, variable, inline, None).0;
    LookupSplits(p, variable, inline, None, n.props, ctx);
    scanned := SomeScan(g, ctx, lab, inline);
    pushed := SomeScan(g, ctx, lab, i2);
    var rows := ScanRows(variable, scanned.value);
    forall i | 0 <= i < |rows| ensures Eval(p, rows[i], ctx).Some? {
      assert scanned.value[i] in IndexScan(g, lab, ScanKeyOf(inline, ctx, map[]).props);
      assert rows[i] == NodeRow(variable, n);
    }
    FilterCount(rows, p, ctx, map[]);
    PlansRun(g, ctx, lab, inline, variable, p, scanned, pushed);
  }

  lemma SomeScan(g: Graph, ctx: Context, lab: Option<string>, inline: InlineProps) returns (r: Option<seq<Node>>)
    ensures ScanReturns(g, ctx, lab, inline, r)
  {
    match ScanKeyOf(inline, ctx, map[])
    case ScanFails => r := None;
    case NeverMatches => r := Some([]);
    case Probe(props) =>
      var found := SomeEnumeration(IndexScan(g, lab, props));
      r := Some(found);
  }

  // Any predicate: pushing it is right on every graph exactly when the plans
  // agree on every node on which it evaluates.
  lemma PushdownIsTight(ctx: Context, lab: Option<string>, inline: InlineProps, variable: string, p: Expr)
    ensures AlwaysPushable(ctx, lab, inline, variable, p) <==>
            forall n: Node :: Eval(p, NodeRow(variable, n), ctx).Some? ==> PushAgrees(n, ctx, lab, inline, variable, p)
  {
    hide BothPlans, SameRows, ScanKeeps, Eval, Extract, AllEqual, AllHold, HoldsIfAny, Run;
    if AlwaysPushable(ctx, lab, inline, variable, p) {
      forall n: Node | Eval(p, NodeRow(variable, n), ctx).Some?
        ensures PushAgrees(n, ctx, lab, inline, variable, p)
      {
        if ScanKeeps(n, lab, inline, ctx) {
          var g := OnlyNodeGraph(n);
          var scanned, pushed := OneNodePlans(ctx, lab, inline, variable, p, n);
          PushdownIsFaithful(g, ctx, lab, inline, variable, p, scanned, pushed);
          assert g.nodes[n.id] == n;
        }
      }
    }
    if forall n: Node :: Eval(p, NodeRow(variable, n), ctx).Some? ==> PushAgrees(n, ctx, lab, inline, variable, p) {
      forall g, scanned, pushed | GraphOk(g) && BothPlans(g, ctx, lab, inline, variable, p, scanned, pushed)
        ensures SameRows(g, ctx, lab, inline, variable, p, scanned, pushed)
      {
        AgreesOnAll(g, ctx, lab, inline, variable, p, scanned, pushed);
      }
    }
  }

  lemma AgreesOnAll(g: Graph, ctx: Context, lab: Option<string>, inline: InlineProps, variable: string,
                    p: Expr, scanned: Option<seq<Node>>, pushed: Option<seq<Node>>)
    requires BothPlans(g, ctx, lab, inline, variable, p, scanned, pushed)
    requires forall n: Node :: Eval(p, NodeRow(variable, n), ctx).Some? ==> PushAgrees(n, ctx, lab, inline, variable, p)
    ensures SameRows(g, ctx, lab, inline, variable, p, scanned, pushed)
  {
    hide SameRows, ScanKeeps, Eval, ScanReturns, FilterRows, Extract, ScanRows, Run, ScanOf, PushWhereIntoScan;
    PlansRun(g, ctx, lab, inline, variable, p, scanned, pushed);
    PushdownIsFaithful(g, ctx, lab, inline, variable, p, scanned, pushed);
    forall n | n in g.nodes.Values ensures PushAgrees(n, ctx, lab, inline, variable, p) {
      if ScanKeeps(n, lab, inline, ctx) {
        ScannedEvaluates(g, ctx, lab, inline, variable, p, scanned.value, n);
      }
    }
  }

  // No pushed value has a twin.
  ghost predicate NoTwinPushed(ctx: Context, inline: InlineProps, variable: string, p: Expr) {
    var i2 := Extract(p, variable, inline, None).0;
    forall i :: |inline| <= i < |i2| ==> !HasTwin(ConstValue(i2[i].1, ctx))
  }

  // A predicate pushed as a whole, nothing left over: right on every graph
  // exactly when no pushed value has a twin, or the lookup is pointless because
  // it asks for a value no property can have.
  lemma ConjunctionIsTight(ctx: Context, lab: Option<string>, inline: InlineProps, variable: string, p: Expr)
    requires Extract(p, variable, inline, None).1.None?
    ensures AlwaysPushable(ctx, lab, inline, variable, p) <==>
            (ScanKeyOf(Extract(p, variable, inline, None).0, ctx, map[]).Probe? ==> NoTwinPushed(ctx, inline, variable, p))
  {
    hide AlwaysPushable, Eval, ScanKeyOf, NoTwinPushed;
    PushdownIsTight(ctx, lab, inline, variable, p);
    if !ScanKeyOf(Extract(p, variable, inline, None).0, ctx, map[]).Probe? {
      forall n: Node ensures PushAgrees(n, ctx, lab, inline, variable, p) {
        PointlessAgrees(n, ctx, lab, inline, variable, p);
      }
    } else if NoTwinPushed(ctx, inline, variable, p) {
      forall n: Node ensures PushAgrees(n, ctx, lab, inline, variable, p) {
        NoTwinAgrees(n, ctx, lab, inline, variable, p);
      }
    } else {
      var n := TwinBreaksPushdown(ctx, lab, inline, variable, p);
    }
  }

  lemma NoTwinAgrees(n: Node, ctx: Context, lab: Option<string>, inline: InlineProps, variable: string, p: Expr)
    requires NoTwinPushed(ctx, inline, variable, p)
    ensures PushAgrees(n, ctx, lab, inline, variable, p)
  {
    hide HasTwin, Extract;
    var i2 := Extract(p, variable, inline, None).0;
    NoTwinsPushExactly(n.props, i2, |inline|, ctx);
    ExactMeansAlike(n.props, i2, |inline|, ctx);
  }

  lemma PointlessAgrees(n: Node, ctx: Context, lab: Option<string>, inline: InlineProps, variable: string, p: Expr)
    requires !ScanKeyOf(Extract(p, variable, inline, None).0, ctx, map[]).Probe?
    ensures PushAgrees(n, ctx, lab, inline, variable, p)
  {
    hide ScanKeyOf, Extract, ConstValue;
    var i2 := Extract(p, variable, inline, None).0;
    LookupSplits(p, variable, inline, None, n.props, ctx);
    if ScanKeeps(n, lab, inline, ctx) {
      var i :| |inline| <= i < |i2| && AsScalar(ConstValue(i2[i].1, ctx)).None?;
      assert !PairEqual(n.props, i2[i].0, i2[i].1, ctx) && !PairHolds(n.props, i2[i].0, i2[i].1, ctx);
    }
  }

  lemma {:induction false} PushedEvaluates(p: Expr, variable: string, inline: InlineProps, remaining: Option<Expr>,
                                           n: Node, ctx: Context)
    requires Extract(p, variable, inline, remaining).1.None?
    ensures remaining.None? && Eval(p, NodeRow(variable, n), ctx).Some?
    decreases p
  {
    var (i2, r2) := Extract(p, variable, inline, remaining);
    ExtractCases(p, variable, inline, remaining);
    if p.And? {
      var (i1, r1) := Extract(p.l, variable, inline, remaining);
      PushedEvaluates(p.r, variable, i1, r1, n, ctx);
      PushedEvaluates(p.l, variable, inline, remaining, n, ctx);
    } else {
      PushedComparison(p, variable, i2[|inline|].0, i2[|inline|].1, n, ctx);
    }
  }

  // The lookup does not read a key it was not given.
  lemma {:induction false} KeyKeepsOther(inline: InlineProps, ctx: Context, acc: Props, key: string, w: PropertyValue, p: Props)
    requires !HasKey(inline, key) && key !in acc
    ensures KeyKeeps(p, ScanKeyOf(inline, ctx, acc)) ==> KeyKeeps(p[key := w], ScanKeyOf(inline, ctx, acc))
    decreases |inline|
  {
    if inline != [] {
      assert inline[0].0 != key;
      assert forall i :: 0 <= i < |inline[1..]| ==> inline[1..][i] == inline[i + 1];
      var v := Eval(inline[0].1, map[], ctx);
      if v.Some? && AsScalar(v.value).Some? {
        KeyKeepsOther(inline[1..], ctx, acc[inline[0].0 := AsScalar(v.value).value], key, w, p);
      }
    }
  }

  // A node the plans disagree on, for every conjunction that pushes a twin.
  lemma TwinBreaksPushdown(ctx: Context, lab: Option<string>, inline: InlineProps, variable: string, p: Expr)
    returns (n: Node)
    requires Extract(p, variable, inline, None).1.None? && !NoTwinPushed(ctx, inline, variable, p)
    requires ScanKeyOf(Extract(p, variable, inline, None).0, ctx, map[]).Probe?
    ensures Eval(p, NodeRow(variable, n), ctx).Some? && !PushAgrees(n, ctx, lab, inline, variable, p)
  {
    hide HasTwin, ScanKeyOf, Eval, Extract, PairEqual, PairHolds;
    var i2 := Extract(p, variable, inline, None).0;
    var looked := ScanKeyOf(i2, ctx, map[]).props;
    var labels := if lab.Some? then [lab.value] else [];
    n := Node(0, labels, looked);
    PushedEvaluates(p, variable, inline, None, n, ctx);
    LookupSplits(p, variable, inline, None, looked, ctx);
    assert ScanKeeps(n, lab, inline, ctx) && AllHold(looked, i2, |inline|, ctx);
    if AllEqual(looked, i2, |inline|, ctx) {
      var j :| |inline| <= j < |i2| && HasTwin(ConstValue(i2[j].1, ctx));
      var w := TwinOfEqual(ctx, looked, i2, |inline|, j);
      ExtractGrows(p, variable, inline, None);
      n := Node(0, labels, looked[i2[j].0 := w]);
      PushedEvaluates(p, variable, inline, None, n, ctx);
      assert !HasKey(inline, i2[j].0) by {
        assert forall i :: 0 <= i < |inline| ==> i2[..j][i] == inline[i];
      }
      KeyKeepsOther(inline, ctx, map[], i2[j].0, w, looked);
      OnlyOneChanged(ctx, looked, i2, |inline|, j, w);
    }
  }

  // A value equal to what is looked up under the `j`-th pair, yet another.
  lemma TwinOfEqual(ctx: Context, p: Props, i2: InlineProps, from: nat, j: nat) returns (w: PropertyValue)
    requires from <= j < |i2| && AllEqual(p, i2, from, ctx) && AllHold(p, i2, from, ctx)
    requires HasTwin(ConstValue(i2[j].1, ctx))
    ensures ValuesEqual(ToValue(w), ConstValue(i2[j].1, ctx)) && ToValue(w) != ConstValue(i2[j].1, ctx)
  {
    hide HasTwin, ValuesEqual;
    var v := ConstValue(i2[j].1, ctx);
    TwinsExactly(v);
    w :| !(ValuesEqual(ToValue(w), v) <==> ToValue(w) == v);
    assert PairEqual(p, i2[j].0, i2[j].1, ctx) && PairHolds(p, i2[j].0, i2[j].1, ctx);
  }

  lemma OnlyOneChanged(ctx: Context, p: Props, i2: InlineProps, from: nat, j: nat, w: PropertyValue)
    requires from <= j < |i2| && AllEqual(p, i2, from, ctx)
    requires forall i :: from <= i < |i2| ==> !HasKey(i2[..i], i2[i].0)
    requires ValuesEqual(ToValue(w), ConstValue(i2[j].1, ctx)) && ToValue(w) != ConstValue(i2[j].1, ctx)
    ensures AllEqual(p[i2[j].0 := w], i2, from, ctx) && !AllHold(p[i2[j].0 := w], i2, from, ctx)
  {
    hide ValuesEqual, ConstValue;
    var q := p[i2[j].0 := w];
    forall i | from <= i < |i2| ensures PairEqual(q, i2[i].0, i2[i].1, ctx) {
      assert PairEqual(p, i2[i].0, i2[i].1, ctx);
      if i < j {
        assert i2[..j][i] == i2[i];
      } else if j < i {
        assert i2[..i][j] == i2[j];
      }
    }
    assert !PairHolds(q, i2[j].0, i2[j].1, ctx);
  }

  // One equality: exactly when its value has no twin; an integer always has
  // one, the float equal to it.
  lemma EqualityIsTight(ctx: Context, lab: Option<string>, variable: string, key: string, value: Expr)
    requires IsScanPushable(value)
    ensures AlwaysPushable(ctx, lab, [], variable, Comparison(Property(Variable(variable), key), Eq, value)) <==>
            !HasTwin(ConstValue(value, ctx))
  {
    hide AlwaysPushable, HasTwin, ConstValue;
    var p := Comparison(Property(Variable(variable), key), Eq, value);
    var inline: InlineProps := [];
    assert Extract(p, variable, inline, None) == ([(key, value)], None) by {
      assert !HasKey(inline, key) && inline + [(key, value)] == [(key, value)];
    }
    ConjunctionIsTight(ctx, lab, inline, variable, p);
    LookupSplits(p, variable, inline, None, map[], ctx);
    TwinIsScalar(ConstValue(value, ctx));
    if !HasTwin(ConstValue(value, ctx)) {
      assert NoTwinPushed(ctx, inline, variable, p);
    } else {
      assert [(key, value)][0].1 == value;
    }
  }

  // `n.x = 1 AND n.x = 'a'` pushes a value with a twin and is right all the
  // same: the leftover drops every node on which the lookup errs.
  lemma TwinsMayCancel(ctx: Context, variable: string, key: string)
    ensures var x := Property(Variable(variable), key);
            var one, other := Literal(LInteger(1)), Literal(LString("a"));
            var p := And(Comparison(x, Eq, one), Comparison(x, Eq, other));
            && AlwaysPushable(ctx, None, [], variable, p)
            && Extract(p, variable, [], None) == ([(key, one)], Some(Comparison(x, Eq, other)))
            && HasTwin(ConstValue(one, ctx))
  {
    hide AlwaysPushable, I64ToF64, Eval, CompareStrings, PushAgrees;
    var x := Property(Variable(variable), key);
    var one, other := Literal(LInteger(1)), Literal(LString("a"));
    var p := And(Comparison(x, Eq, one), Comparison(x, Eq, other));
    var inline: InlineProps := [];
    assert !HasKey(inline, key) && inline + [(key, one)] == [(key, one)];
    assert HasKey([(key, one)], key) by {
      assert [(key, one)][0].0 == key;
    }
    assert Extract(p, variable, inline, None) == ([(key, one)], Some(p.r)) by {
      assert Extract(p.l, variable, inline, None) == ([(key, one)], None);
    }
    PushdownIsTight(ctx, None, inline, variable, p);
    forall n: Node ensures PushAgrees(n, ctx, None, inline, variable, p) {
      NeitherPasses(n, ctx, inline, variable, p, key, one, "a");
    }
  }

  // Nothing equal to a string equals the integer pushed.
  lemma NeitherPasses(n: Node, ctx: Context, inline: InlineProps, variable: string, p: Expr, key: string, value: Expr, s: string)
    requires ConstValue(value, ctx).Integer? && inline == []
    requires Extract(p, variable, inline, None).0 == [(key, value)]
    requires var rem := Extract(p, variable, inline, None).1;
             rem.Some? && IsPushed(rem.value, variable, key, Literal(LString(s)))
    ensures PushAgrees(n, ctx, None, inline, variable, p)
  {
    hide Extract, Eval, I64ToF64, CompareStrings;
    var rem := Extract(p, variable, inline, None).1.value;
    PushedComparison(rem, variable, key, Literal(LString(s)), n, ctx);
    assert [(key, value)][0] == (key, value);
  }

  lemma TwinIsScalar(v: Value)
    ensures HasTwin(v) ==> AsScalar(v).Some?
  {
  }
}
