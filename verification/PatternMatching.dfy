// Matching of nodes and relationships inside EXISTS and pattern
// comprehensions, and what their expressions depend on.

module PatternMatching {
  import opened GraphTypes
  import opened Sequences
  import opened AbstractGraph
  import opened MemoryStorages
  import opened Trails
  import opened Expressions
  import opened Planner

  // --- Expressions ---

  predicate Mentions(e: Expr, x: string) {
    match e
    case Variable(y) => x == y
    case Property(b, _) => Mentions(b, x)
    case Comparison(l, _, r) => Mentions(l, x) || Mentions(r, x)
    case And(l, r) => Mentions(l, x) || Mentions(r, x)
    case Or(l, r) => Mentions(l, x) || Mentions(r, x)
    case Xor(l, r) => Mentions(l, x) || Mentions(r, x)
    case Not(o) => Mentions(o, x)
    case Neg(o) => Mentions(o, x)
    case IsNull(o) => Mentions(o, x)
    case HasLabel(o, _) => Mentions(o, x)
    case Other(_) => true
    case _ => false
  }

  lemma {:induction false} UnmentionedIsIrrelevant(e: Expr, rec: Record, x: string, v: Value, ctx: Context)
    requires !Mentions(e, x)
    ensures Eval(e, rec[x := v], ctx) == Eval(e, rec, ctx)
  {
    match e
    case Property(b, _) => UnmentionedIsIrrelevant(b, rec, x, v, ctx);
    case Comparison(l, _, r) => UnmentionedIsIrrelevant(l, rec, x, v, ctx); UnmentionedIsIrrelevant(r, rec, x, v, ctx);
    case And(l, r) => UnmentionedIsIrrelevant(l, rec, x, v, ctx); UnmentionedIsIrrelevant(r, rec, x, v, ctx);
    case Or(l, r) => UnmentionedIsIrrelevant(l, rec, x, v, ctx); UnmentionedIsIrrelevant(r, rec, x, v, ctx);
    case Xor(l, r) => UnmentionedIsIrrelevant(l, rec, x, v, ctx); UnmentionedIsIrrelevant(r, rec, x, v, ctx);
    case Not(o) => UnmentionedIsIrrelevant(o, rec, x, v, ctx);
    case Neg(o) => UnmentionedIsIrrelevant(o, rec, x, v, ctx);
    case IsNull(o) => UnmentionedIsIrrelevant(o, rec, x, v, ctx);
    case HasLabel(o, _) => UnmentionedIsIrrelevant(o, rec, x, v, ctx);
    case _ =>
  }

  // None of the values is an error on this row.
  predicate Evaluates(inline: InlineProps, rec: Record, ctx: Context) {
    forall i :: 0 <= i < |inline| ==> Eval(inline[i].1, rec, ctx).Some?
  }

  predicate NotMentioned(inline: InlineProps, x: string) {
    forall i :: 0 <= i < |inline| ==> !Mentions(inline[i].1, x)
  }

  // --- Property maps against a row ---

  function Stored(props: Props, key: string): Value {
    if key in props then ToValue(props[key]) else Null
  }

  // Entries are checked in order; the first that differs decides, and an error
  // met before that is the result.
  function PropsMatch(props: Props, inline: InlineProps, rec: Record, ctx: Context): Option<bool>
    decreases |inline|
  {
    if inline == [] then Some(true)
    else
      var v := Eval(inline[0].1, rec, ctx);
      if v.None? then None
      else if !ValuesEqual(Stored(props, inline[0].0), v.value) then Some(false)
      else PropsMatch(props, inline[1..], rec, ctx)
  }

  ghost predicate AllEqual(props: Props, inline: InlineProps, rec: Record, ctx: Context) {
    forall i :: 0 <= i < |inline| ==>
      var v := Eval(inline[i].1, rec, ctx);
      v.Some? && ValuesEqual(Stored(props, inline[i].0), v.value)
  }

  lemma {:induction false} PropsMatchMeaning(props: Props, inline: InlineProps, rec: Record, ctx: Context)
    requires Evaluates(inline, rec, ctx)
    ensures PropsMatch(props, inline, rec, ctx).Some?
    ensures PropsMatch(props, inline, rec, ctx).value <==> AllEqual(props, inline, rec, ctx)
    decreases |inline|
  {
    if inline != [] {
      assert forall i :: 0 <= i < |inline[1..]| ==> inline[1..][i] == inline[i + 1];
      PropsMatchMeaning(props, inline[1..], rec, ctx);
      assert AllEqual(props, inline, rec, ctx) <==>
             ValuesEqual(Stored(props, inline[0].0), Eval(inline[0].1, rec, ctx).value) && AllEqual(props, inline[1..], rec, ctx)
      by {
        assert forall i :: 0 < i < |inline| ==> inline[i] == inline[1..][i - 1];
      }
    }
  }

  lemma AllEqualIgnores(props: Props, inline: InlineProps, rec: Record, x: string, v: Value, ctx: Context)
    requires NotMentioned(inline, x)
    ensures AllEqual(props, inline, rec[x := v], ctx) <==> AllEqual(props, inline, rec, ctx)
  {
    forall i | 0 <= i < |inline| ensures Eval(inline[i].1, rec[x := v], ctx) == Eval(inline[i].1, rec, ctx) {
      UnmentionedIsIrrelevant(inline[i].1, rec, x, v, ctx);
    }
  }

  // `exists_node_matches`
  function NodeMatches(n: Node, np: NodePattern, rec: Record, ctx: Context): Option<bool> {
    if exists i :: 0 <= i < |np.labels| && np.labels[i] !in n.labels then Some(false)
    else PropsMatch(n.props, Inline(EntriesOf(np.props)), rec, ctx)
  }

  ghost predicate NodeHolds(n: Node, np: NodePattern, rec: Record, ctx: Context) {
    (forall l :: l in np.labels ==> l in n.labels) && AllEqual(n.props, Inline(EntriesOf(np.props)), rec, ctx)
  }

  ghost predicate RelHolds(e: Edge, rp: RelPattern, rec: Record, ctx: Context) {
    TypeOk(rp.relTypes, e.relType) && AllEqual(e.props, Inline(EntriesOf(rp.props)), rec, ctx)
  }

  predicate NodeEvaluates(np: NodePattern, rec: Record, ctx: Context) {
    Evaluates(Inline(EntriesOf(np.props)), rec, ctx)
  }

  predicate RelEvaluates(rp: RelPattern, rec: Record, ctx: Context) {
    Evaluates(Inline(EntriesOf(rp.props)), rec, ctx)
  }

  lemma NodeMatchesMeaning(n: Node, np: NodePattern, rec: Record, ctx: Context)
    requires NodeEvaluates(np, rec, ctx)
    ensures NodeMatches(n, np, rec, ctx).Some?
    ensures NodeMatches(n, np, rec, ctx).value <==> NodeHolds(n, np, rec, ctx)
  {
    PropsMatchMeaning(n.props, Inline(EntriesOf(np.props)), rec, ctx);
  }

  // --- Seeding the start nodes ---

  // Only strings and booleans seed the lookup: the index is exact for them.
  // None is an error, Some(None) means no node can match.
  function SeedKey(inline: InlineProps, rec: Record, ctx: Context, acc: Props): Option<Option<Props>>
    decreases |inline|
  {
    if inline == [] then Some(Some(acc))
    else
      var v := Eval(inline[0].1, rec, ctx);
      if v.None? then None
      else
        match v.value
        case StringVal(s) => SeedKey(inline[1..], rec, ctx, acc[inline[0].0 := Str(s)])
        case Boolean(b) => SeedKey(inline[1..], rec, ctx, acc[inline[0].0 := Bool(b)])
        case Integer(_) => SeedKey(inline[1..], rec, ctx, acc)
        case FloatVal(_) => SeedKey(inline[1..], rec, ctx, acc)
        case _ => Some(None)
  }

  // Seeding only narrows: whatever satisfies the pattern is seeded.
  lemma {:induction false} SeedKeepsMatches(inline: InlineProps, rec: Record, ctx: Context, acc: Props, props: Props)
    requires AllEqual(props, inline, rec, ctx) && HasPropsByKey(props, acc)
    ensures var key := SeedKey(inline, rec, ctx, acc);
            key.Some? && key.value.Some? && HasPropsByKey(props, key.value.value)
    decreases |inline|
  {
    if inline != [] {
      var (k, e) := inline[0];
      var v := Eval(e, rec, ctx).value;
      assert ValuesEqual(Stored(props, k), v);
      assert forall i :: 0 <= i < |inline[1..]| ==> inline[1..][i] == inline[i + 1];
      if v.StringVal? {
        CompareStringsEqual(props[k].s, v.s);
        SeedKeepsMatches(inline[1..], rec, ctx, acc[k := Str(v.s)], props);
      } else if v.Boolean? {
        SeedKeepsMatches(inline[1..], rec, ctx, acc[k := Bool(v.b)], props);
      } else {
        SeedKeepsMatches(inline[1..], rec, ctx, acc, props);
      }
    }
  }

  lemma {:induction false} SeedEvaluates(inline: InlineProps, rec: Record, ctx: Context, acc: Props)
    requires Evaluates(inline, rec, ctx)
    ensures SeedKey(inline, rec, ctx, acc).Some?
    decreases |inline|
  {
    if inline != [] {
      assert forall i :: 0 <= i < |inline[1..]| ==> inline[1..][i] == inline[i + 1];
      var v := Eval(inline[0].1, rec, ctx).value;
      match v
      case StringVal(s) => SeedEvaluates(inline[1..], rec, ctx, acc[inline[0].0 := Str(s)]);
      case Boolean(b) => SeedEvaluates(inline[1..], rec, ctx, acc[inline[0].0 := Bool(b)]);
      case _ => SeedEvaluates(inline[1..], rec, ctx, acc);
    }
  }

  method SeedCandidates(storage: MemoryStorage, np: NodePattern, rec: Record, ctx: Context)
    returns (r: Option<seq<Node>>)
    requires storage.Valid()
    ensures var key := SeedKey(Inline(EntriesOf(np.props)), rec, ctx, map[]);
            && (key.None? <==> r.None?)
            && (key.Some? && key.value.None? ==> r == Some([]))
            && (key.Some? && key.value.Some? ==>
                 Enumerates(r.value, IndexScan(storage.View(), FirstLabel(np), key.value.value)))
  {
    hide MemoryStorage.Valid;
    var lab := FirstLabel(np);
    var key := SeedKey(Inline(EntriesOf(np.props)), rec, ctx, map[]);
    if key.None? {
      return None;
    }
    if key.value.None? {
      return Some([]);
    }
    var nodes := storage.MatchNodesWithProps(lab, key.value.value);
    r := Some(nodes);
  }

  // The live nodes that satisfy a pattern on a row.
  ghost function Matching(g: Graph, np: NodePattern, rec: Record, ctx: Context): set<Node> {
    set i | i in g.nodes && NodeHolds(g.nodes[i], np, rec, ctx) :: g.nodes[i]
  }

  // Seed, then filter exactly.
  method NodeCandidates(storage: MemoryStorage, np: NodePattern, rec: Record, ctx: Context)
    returns (r: Option<seq<Node>>)
    requires storage.Valid()
    ensures NodeEvaluates(np, rec, ctx) ==> r.Some? && Enumerates(r.value, Matching(storage.View(), np, rec, ctx))
  {
    hide MemoryStorage.Valid, IndexScan, NodeMatches, NodeHolds, NodeEvaluates;
    var seeds := SeedCandidates(storage, np, rec, ctx);
    if NodeEvaluates(np, rec, ctx) {
      SeedsCover(storage.View(), np, rec, ctx);
    }
    if seeds.None? {
      return None;
    }
    var out: seq<Node> := [];
    for i := 0 to |seeds.value|
      invariant NodeEvaluates(np, rec, ctx) ==> forall n :: n in out <==> n in seeds.value[..i] && NodeHolds(n, np, rec, ctx)
      invariant NoDup(seeds.value) ==> NoDup(out) && forall n :: n in out ==> n in seeds.value[..i]
    {
      var n := seeds.value[i];
      if NodeEvaluates(np, rec, ctx) {
        NodeMatchesMeaning(n, np, rec, ctx);
      }
      var m := NodeMatches(n, np, rec, ctx);
      if m.None? {
        return None;
      }
      assert seeds.value[..i + 1] == seeds.value[..i] + [n];
      assert NoDup(seeds.value) ==> n !in seeds.value[..i];
      if m.value {
        NoDupAppend(out, n);
        out := out + [n];
      }
    }
    assert seeds.value[..|seeds.value|] == seeds.value;
    r := Some(out);
  }

  lemma SeedsCover(g: Graph, np: NodePattern, rec: Record, ctx: Context)
    requires NodeEvaluates(np, rec, ctx)
    ensures var key := SeedKey(Inline(EntriesOf(np.props)), rec, ctx, map[]);
            && key.Some?
            && (key.value.None? ==> Matching(g, np, rec, ctx) == {})
            && (key.value.Some? ==>
                 forall n :: n in Matching(g, np, rec, ctx) <==>
                   n in IndexScan(g, FirstLabel(np), key.value.value) && NodeHolds(n, np, rec, ctx))
  {
    var inline := Inline(EntriesOf(np.props));
    SeedEvaluates(inline, rec, ctx, map[]);
    var key := SeedKey(inline, rec, ctx, map[]);
    forall i | i in g.nodes && NodeHolds(g.nodes[i], np, rec, ctx)
      ensures key.value.Some? && g.nodes[i] in IndexScan(g, FirstLabel(np), key.value.value)
    {
      SeedKeepsMatches(inline, rec, ctx, map[], g.nodes[i].props);
    }
  }
}
