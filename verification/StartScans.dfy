// The scan that starts a MATCH: it looks nodes up by value in the property
// index, while the pattern compares numerically and entry by entry. When the
// two agree.

module StartScans {
  import opened GraphTypes
  import opened Sequences
  import opened Floats
  import opened AbstractGraph
  import opened Expressions
  import opened Planner
  import opened MatchExecution
  import opened MatchChain

  ghost predicate ConstantInline(inline: InlineProps) {
    forall i :: 0 <= i < |inline| ==> IsConstant(inline[i].1)
  }

  function EntryValue(inline: InlineProps, ctx: Context, i: nat): Value
    requires i < |inline|
  {
    ConstValue(inline[i].1, ctx)
  }

  ghost predicate AllScalar(inline: InlineProps, ctx: Context) {
    forall i :: 0 <= i < |inline| ==> AsScalar(EntryValue(inline, ctx, i)).Some?
  }

  // Some entry for `key` has the value `p`.
  predicate IsEntryOf(inline: InlineProps, ctx: Context, key: string, p: PropertyValue) {
    exists i :: 0 <= i < |inline| && inline[i].0 == key && AsScalar(EntryValue(inline, ctx, i)) == Some(p)
  }

  // What the lookup asks for: every key once, by the value of one of its entries.
  ghost predicate LooksUp(inline: InlineProps, ctx: Context, acc: Props, props: Props) {
    && (forall i :: 0 <= i < |inline| ==> inline[i].0 in props)
    && (forall k :: k in acc ==> k in props)
    && (forall k :: k in props ==> (k in acc && props[k] == acc[k]) || IsEntryOf(inline, ctx, k, props[k]))
  }

  lemma TailEntries(inline: InlineProps, ctx: Context, key: string, p: PropertyValue)
    requires inline != []
    ensures IsEntryOf(inline, ctx, key, p) <==>
            (inline[0].0 == key && AsScalar(EntryValue(inline, ctx, 0)) == Some(p)) || IsEntryOf(inline[1..], ctx, key, p)
    ensures AllScalar(inline, ctx) <==> AsScalar(EntryValue(inline, ctx, 0)).Some? && AllScalar(inline[1..], ctx)
  {
    hide AsScalar, ConstValue;
    var rest := inline[1..];
    forall i | 0 < i < |inline| ensures inline[i] == rest[i - 1] && EntryValue(inline, ctx, i) == EntryValue(rest, ctx, i - 1) {}
    if IsEntryOf(rest, ctx, key, p) {
      var i :| 0 <= i < |rest| && rest[i].0 == key && AsScalar(EntryValue(rest, ctx, i)) == Some(p);
      assert inline[i + 1] == rest[i];
    }
    if AllScalar(inline, ctx) {
      forall i | 0 <= i < |rest| ensures AsScalar(EntryValue(rest, ctx, i)).Some? {
        assert AsScalar(EntryValue(inline, ctx, i + 1)).Some?;
      }
    }
  }

  lemma {:induction false} ScanKeyIs(inline: InlineProps, ctx: Context, acc: Props)
    requires ConstantInline(inline)
    ensures !ScanKeyOf(inline, ctx, acc).ScanFails?
    ensures ScanKeyOf(inline, ctx, acc).Probe? <==> AllScalar(inline, ctx)
    ensures ScanKeyOf(inline, ctx, acc).Probe? ==> LooksUp(inline, ctx, acc, ScanKeyOf(inline, ctx, acc).props)
    decreases |inline|
  {
    if inline != [] {
      hide LooksUp, AllScalar, AsScalar, IsEntryOf, Eval, ConstValue, IsConstant;
      var (key, expr) := inline[0];
      ConstantEval(expr, map[], ctx);
      var scalar := AsScalar(EntryValue(inline, ctx, 0));
      TailEntries(inline, ctx, key, Int(0));
      if scalar.Some? {
        var acc2 := acc[key := scalar.value];
        ScanKeyIs(inline[1..], ctx, acc2);
        if AllScalar(inline[1..], ctx) {
          LooksUpMore(inline, ctx, acc, ScanKeyOf(inline[1..], ctx, acc2).props, scalar.value);
        }
      }
    }
  }

  lemma LooksUpMore(inline: InlineProps, ctx: Context, acc: Props, props: Props, scalar: PropertyValue)
    requires inline != [] && AsScalar(EntryValue(inline, ctx, 0)) == Some(scalar)
    requires LooksUp(inline[1..], ctx, acc[inline[0].0 := scalar], props)
    ensures LooksUp(inline, ctx, acc, props)
  {
    hide IsEntryOf, EntryValue, AsScalar;
    var (rest, key, acc2) := (inline[1..], inline[0].0, acc[inline[0].0 := scalar]);
    assert key in acc2;
    forall i | 0 <= i < |inline| ensures inline[i].0 in props {
      if i > 0 {
        assert inline[i] == rest[i - 1];
      }
    }
    forall k | k in acc ensures k in props {
      assert k in acc2;
    }
    forall k | k in props ensures (k in acc && props[k] == acc[k]) || IsEntryOf(inline, ctx, k, props[k]) {
      TailEntries(inline, ctx, k, props[k]);
    }
  }

  lemma NonScalarHoldsNowhere(inline: InlineProps, ctx: Context, p: Props)
    requires !AllScalar(inline, ctx)
    ensures !PropsHold(p, inline, ctx)
  {
    var i :| 0 <= i < |inline| && AsScalar(EntryValue(inline, ctx, i)).None?;
    assert !PropHolds(p, inline[i].0, inline[i].1, ctx);
  }

  // --- On one graph ---

  // Among the nodes with the first label, passing the lookup and satisfying the
  // map are the same.
  ghost predicate ProbeAgrees(g: Graph, ctx: Context, start: NodePattern) {
    var inline := Inline(EntriesOf(start.props));
    var key := ScanKeyOf(inline, ctx, map[]);
    key.Probe? ==>
      forall i | i in g.nodes && LabelMatches(g.nodes[i], FirstLabel(start)) ::
        HasPropsByKey(g.nodes[i].props, key.props) <==> PropsHold(g.nodes[i].props, inline, ctx)
  }

  // The scan finds exactly the nodes that carry the first label and the inline
  // properties when, and only when, lookup and map agree on the graph.
  lemma ScanIsFaithful(g: Graph, ctx: Context, start: NodePattern, scanned: Option<seq<Node>>)
    requires GraphOk(g) && ConstantInline(Inline(EntriesOf(start.props)))
    requires ScanReturns(g, ctx, FirstLabel(start), Inline(EntriesOf(start.props)), scanned)
    ensures scanned.Some? && (ScanFinds(g, ctx, start, scanned.value) <==> ProbeAgrees(g, ctx, start))
  {
    hide PropsHold, HasPropsByKey;
    var inline, lab := Inline(EntriesOf(start.props)), FirstLabel(start);
    ScanKeyIs(inline, ctx, map[]);
    var key := ScanKeyOf(inline, ctx, map[]);
    if key.Probe? {
      forall n: Node
        ensures multiset(scanned.value)[n] ==
                if LiveNode(g, n) && LabelMatches(n, lab) && HasPropsByKey(n.props, key.props) then 1 else 0
      {
        NoDupMultiset(scanned.value, n);
        assert n in scanned.value <==> n in IndexScan(g, lab, key.props);
      }
      if ScanFinds(g, ctx, start, scanned.value) {
        forall i | i in g.nodes && LabelMatches(g.nodes[i], lab)
          ensures HasPropsByKey(g.nodes[i].props, key.props) <==> PropsHold(g.nodes[i].props, inline, ctx)
        {
          assert LiveNode(g, g.nodes[i]);
          assert multiset(scanned.value)[g.nodes[i]] == if PropsHold(g.nodes[i].props, inline, ctx) then 1 else 0;
        }
      }
    } else {
      forall n: Node ensures !PropsHold(n.props, inline, ctx) {
        NonScalarHoldsNowhere(inline, ctx, n.props);
      }
    }
  }

  // --- On every graph ---

  ghost function ValuesOf(inline: InlineProps, ctx: Context, key: string): set<Value> {
    set i | 0 <= i < |inline| && inline[i].0 == key :: EntryValue(inline, ctx, i)
  }

  // `p` satisfies every entry with these values.
  ghost predicate Answers(p: PropertyValue, values: set<Value>) {
    forall v :: v in values ==> ValuesEqual(ToValue(p), v)
  }

  // `l`, the value looked up, satisfies the entries and has no twin; or it is a
  // float and two different integers among the values leave no integer over.
  ghost predicate PinsDown(l: PropertyValue, values: set<Value>) {
    && Answers(l, values)
    && (!HasTwin(ToValue(l)) || exists a, b :: a in values && b in values && a.Integer? && b.Integer? && a != b)
  }

  lemma ValuesEqualFloats(a: Value, b: Value)
    ensures a.FloatVal? && b.FloatVal? ==> (ValuesEqual(a, b) <==> FloatEq(a.f, b.f))
    ensures a.Integer? && b.FloatVal? ==> (ValuesEqual(a, b) <==> FloatEq(I64ToF64(a.i), b.f))
    ensures a.FloatVal? && b.Integer? ==> (ValuesEqual(a, b) <==> FloatEq(a.f, I64ToF64(b.i)))
    ensures a.Integer? && b.Integer? ==> (ValuesEqual(a, b) <==> a.i == b.i)
    ensures a.Integer? || a.FloatVal? ==> (ValuesEqual(a, b) ==> b.Integer? || b.FloatVal?)
    ensures b.Integer? || b.FloatVal? ==> (ValuesEqual(a, b) ==> a.Integer? || a.FloatVal?)
  {
    hide I64ToF64;
  }

  // Pinning down is being the only value that satisfies the entries.
  lemma PinnedMeansOnly(l: PropertyValue, values: set<Value>)
    requires ToValue(l) in values
    ensures PinsDown(l, values) <==> forall p: PropertyValue :: Answers(p, values) <==> p == l
  {
    hide HasTwin, Answers;
    if PinsDown(l, values) {
      forall p: PropertyValue ensures Answers(p, values) <==> p == l {
        if Answers(p, values) {
          OnlyAnswer(l, values, p);
        }
      }
    } else if Answers(l, values) {
      var p := AnotherAnswer(l, values);
    }
  }

  lemma OnlyAnswer(l: PropertyValue, values: set<Value>, p: PropertyValue)
    requires ToValue(l) in values && PinsDown(l, values) && Answers(p, values)
    ensures p == l
  {
    hide I64ToF64, ValuesEqual, CompareValues;
    assert ValuesEqual(ToValue(p), ToValue(l));
    if !HasTwin(ToValue(l)) {
      TwinsExactly(ToValue(l));
      ScalarRoundTrip(p, ToValue(l));
    } else {
      var a, b :| a in values && b in values && a.Integer? && b.Integer? && a != b;
      ValuesEqualFloats(ToValue(p), a);
      ValuesEqualFloats(ToValue(p), b);
      ValuesEqualFloats(ToValue(p), ToValue(l));
      ValuesEqualFloats(ToValue(l), a);
      ValuesEqualFloats(ToValue(l), b);
      assert p.Float? && l.Float?;
      NonZeroOfInteger(l.f, a.i, b.i);
    }
  }

  // A float two different integers equal is not a zero.
  lemma NonZeroOfInteger(f: F64, i: I64, j: I64)
    requires FloatEq(f, I64ToF64(i)) && FloatEq(f, I64ToF64(j)) && i != j
    ensures !IsZero(f)
  {
    hide I64ToF64;
  }

  lemma AnotherAnswer(l: PropertyValue, values: set<Value>) returns (p: PropertyValue)
    requires ToValue(l) in values && Answers(l, values) && !PinsDown(l, values)
    ensures p != l && Answers(p, values)
  {
    hide I64ToF64, ValuesEqual, CompareValues;
    assert forall a, b :: a in values && b in values && a.Integer? && b.Integer? ==> a == b;
    ValuesEqualFloats(ToValue(l), ToValue(l));
    assert ValuesEqual(ToValue(l), ToValue(l));
    if l.Int? {
      p := Float(I64ToF64(l.i));
    } else if IsZero(l.f) {
      p := Float(if l.f == 0 then TWO63 else 0);
    } else if w :| w in values && w.Integer? {
      p := Int(w.i);
      assert ValuesEqual(ToValue(l), w);
    } else {
      var i: I64 :| FloatEq(I64ToF64(i), l.f);
      p := Int(i);
      ValuesEqualFloats(ToValue(l), ToValue(p));
    }
    forall v | v in values ensures ValuesEqual(ToValue(p), v) {
      TwinEquals(l, p, v, values);
    }
  }

  lemma TwinEquals(l: PropertyValue, p: PropertyValue, v: Value, values: set<Value>)
    requires v in values && ValuesEqual(ToValue(l), v)
    requires || (l.Int? && p == Float(I64ToF64(l.i)))
             || (l.Float? && IsZero(l.f) && p.Float? && IsZero(p.f))
             || (l.Float? && !IsZero(l.f) && p.Int? && ValuesEqual(ToValue(l), ToValue(p)))
    requires p.Int? ==> forall w :: w in values && w.Integer? ==> w.i == p.i
    ensures ValuesEqual(ToValue(p), v)
  {
    hide I64ToF64, ValuesEqual, CompareValues;
    ValuesEqualFloats(ToValue(l), v);
    ValuesEqualFloats(ToValue(l), ToValue(p));
    ValuesEqualFloats(ToValue(p), v);
  }

  // Every key's looked-up value is the only one its entries allow; or some
  // entry allows none.
  ghost predicate EveryKeyPinned(inline: InlineProps, ctx: Context) {
    var key := ScanKeyOf(inline, ctx, map[]);
    key.Probe? ==> forall k :: k in key.props ==> PinsDown(key.props[k], ValuesOf(inline, ctx, k))
  }

  lemma EntriesHold(inline: InlineProps, ctx: Context, p: Props, key: string)
    requires key in p
    ensures Answers(p[key], ValuesOf(inline, ctx, key)) <==>
            forall i :: 0 <= i < |inline| && inline[i].0 == key ==> PropHolds(p, inline[i].0, inline[i].1, ctx)
  {
    hide ValuesEqual;
    if forall i :: 0 <= i < |inline| && inline[i].0 == key ==> PropHolds(p, inline[i].0, inline[i].1, ctx) {
      forall v | v in ValuesOf(inline, ctx, key) ensures ValuesEqual(ToValue(p[key]), v) {
        var i :| 0 <= i < |inline| && inline[i].0 == key && v == EntryValue(inline, ctx, i);
        assert PropHolds(p, inline[i].0, inline[i].1, ctx);
      }
    }
    if Answers(p[key], ValuesOf(inline, ctx, key)) {
      forall i | 0 <= i < |inline| && inline[i].0 == key ensures PropHolds(p, inline[i].0, inline[i].1, ctx) {
        assert EntryValue(inline, ctx, i) in ValuesOf(inline, ctx, key);
      }
    }
  }

  // The map holds of `p` when every key it names is there with an answer.
  lemma HoldsByKey(inline: InlineProps, ctx: Context, props: Props, p: Props)
    requires LooksUp(inline, ctx, map[], props)
    ensures PropsHold(p, inline, ctx) <==> forall k :: k in props ==> k in p && Answers(p[k], ValuesOf(inline, ctx, k))
  {
    hide Answers, ValuesOf, AsScalar;
    forall k | k in p { EntriesHold(inline, ctx, p, k); }
    if PropsHold(p, inline, ctx) {
      forall k | k in props ensures k in p {
        var i :| 0 <= i < |inline| && inline[i].0 == k && AsScalar(EntryValue(inline, ctx, i)) == Some(props[k]);
        assert PropHolds(p, inline[i].0, inline[i].1, ctx);
      }
    }
    if forall k :: k in props ==> k in p && Answers(p[k], ValuesOf(inline, ctx, k)) {
      forall i | 0 <= i < |inline| ensures PropHolds(p, inline[i].0, inline[i].1, ctx) {
        assert inline[i].0 in props;
      }
    }
  }

  lemma LookedUpIsEntry(inline: InlineProps, ctx: Context, props: Props, key: string)
    requires LooksUp(inline, ctx, map[], props) && key in props
    ensures ToValue(props[key]) in ValuesOf(inline, ctx, key)
  {
    var i :| 0 <= i < |inline| && inline[i].0 == key && AsScalar(EntryValue(inline, ctx, i)) == Some(props[key]);
    ScalarRoundTrip(props[key], EntryValue(inline, ctx, i));
  }

  lemma PinnedLookupMeansMap(inline: InlineProps, ctx: Context, props: Props, p: Props)
    requires LooksUp(inline, ctx, map[], props)
    requires forall k :: k in props ==> PinsDown(props[k], ValuesOf(inline, ctx, k))
    ensures HasPropsByKey(p, props) <==> PropsHold(p, inline, ctx)
  {
    hide LooksUp, PinsDown, Answers, ValuesOf, PropsHold;
    HoldsByKey(inline, ctx, props, p);
    forall k | k in props && k in p ensures Answers(p[k], ValuesOf(inline, ctx, k)) <==> p[k] == props[k] {
      LookedUpIsEntry(inline, ctx, props, k);
      PinnedMeansOnly(props[k], ValuesOf(inline, ctx, k));
    }
  }

  // Property values on which lookup and map disagree.
  lemma SomeDisagreement(inline: InlineProps, ctx: Context, props: Props, k: string) returns (p: Props)
    requires LooksUp(inline, ctx, map[], props) && k in props && !PinsDown(props[k], ValuesOf(inline, ctx, k))
    ensures !(HasPropsByKey(p, props) <==> PropsHold(p, inline, ctx))
  {
    hide LooksUp, Answers, ValuesOf, PropsHold;
    HoldsByKey(inline, ctx, props, props);
    if !PropsHold(props, inline, ctx) {
      p := props;
    } else {
      LookedUpIsEntry(inline, ctx, props, k);
      var other := AnotherAnswer(props[k], ValuesOf(inline, ctx, k));
      p := props[k := other];
      HoldsByKey(inline, ctx, props, p);
      assert p[k] != props[k];
    }
  }

  ghost predicate ScanAlwaysFaithful(ctx: Context, start: NodePattern) {
    forall g, scanned :: GraphOk(g) && ScanReturns(g, ctx, FirstLabel(start), Inline(EntriesOf(start.props)), scanned)
      ==> scanned.Some? && ScanFinds(g, ctx, start, scanned.value)
  }

  // The scan is faithful on every graph exactly when every key of the start
  // map is pinned down by its last entry, or some entry holds a null or another
  // value no property can have.
  lemma ScanIsTight(ctx: Context, start: NodePattern)
    requires ConstantInline(Inline(EntriesOf(start.props)))
    ensures ScanAlwaysFaithful(ctx, start) <==> EveryKeyPinned(Inline(EntriesOf(start.props)), ctx)
  {
    hide EveryKeyPinned, ProbeAgrees;
    var inline := Inline(EntriesOf(start.props));
    ScanKeyIs(inline, ctx, map[]);
    if EveryKeyPinned(inline, ctx) {
      forall g, scanned | GraphOk(g) && ScanReturns(g, ctx, FirstLabel(start), inline, scanned)
        ensures scanned.Some? && ScanFinds(g, ctx, start, scanned.value)
      {
        AgreesEverywhere(g, ctx, start);
        ScanIsFaithful(g, ctx, start, scanned);
      }
    } else {
      var g, scanned := UnfaithfulGraph(ctx, start);
    }
  }

  lemma AgreesEverywhere(g: Graph, ctx: Context, start: NodePattern)
    requires ConstantInline(Inline(EntriesOf(start.props))) && EveryKeyPinned(Inline(EntriesOf(start.props)), ctx)
    ensures ProbeAgrees(g, ctx, start)
  {
    hide PinsDown, LooksUp, PropsHold, HasPropsByKey, AllScalar;
    var inline := Inline(EntriesOf(start.props));
    ScanKeyIs(inline, ctx, map[]);
    var key := ScanKeyOf(inline, ctx, map[]);
    if key.Probe? {
      forall i | i in g.nodes ensures HasPropsByKey(g.nodes[i].props, key.props) <==> PropsHold(g.nodes[i].props, inline, ctx) {
        PinnedLookupMeansMap(inline, ctx, key.props, g.nodes[i].props);
      }
    }
  }

  // A graph of one node on which the scan and the pattern disagree.
  lemma UnfaithfulGraph(ctx: Context, start: NodePattern) returns (g: Graph, scanned: Option<seq<Node>>)
    requires ConstantInline(Inline(EntriesOf(start.props))) && !EveryKeyPinned(Inline(EntriesOf(start.props)), ctx)
    ensures GraphOk(g) && ScanReturns(g, ctx, FirstLabel(start), Inline(EntriesOf(start.props)), scanned)
    ensures !(scanned.Some? && ScanFinds(g, ctx, start, scanned.value))
  {
    hide PinsDown, LooksUp, PropsHold, HasPropsByKey, AllScalar, ScanFinds, IndexScan, ScanKeyOf;
    var inline := Inline(EntriesOf(start.props));
    ScanKeyIs(inline, ctx, map[]);
    var key := ScanKeyOf(inline, ctx, map[]);
    var k :| k in key.props && !PinsDown(key.props[k], ValuesOf(inline, ctx, k));
    var p := SomeDisagreement(inline, ctx, key.props, k);
    g := AddNode(EmptyGraph, start.labels, p);
    var found := SomeEnumeration(IndexScan(g, FirstLabel(start), key.props));
    scanned := Some(found);
    assert g.nodes[0] == Node(0, start.labels, p) && LabelMatches(g.nodes[0], FirstLabel(start));
    ScanIsFaithful(g, ctx, start, scanned);
  }

  lemma SingleNodeScan(key: string, stored: PropertyValue, wanted: PropertyValue)
    ensures var g := AddNode(EmptyGraph, [], map[key := stored]);
            Enumerates(if stored == wanted then [g.nodes[0]] else [], IndexScan(g, None, map[key := wanted]))
  {
    var g := AddNode(EmptyGraph, [], map[key := stored]);
    var n := g.nodes[0];
    assert g.nodes == map[0 := n] && key in map[key := wanted] && n.props == map[key := stored];
    assert HasPropsByKey(n.props, map[key := wanted]) <==> stored == wanted;
    assert IndexScan(g, None, map[key := wanted]) == if stored == wanted then {n} else {};
  }

  function OneKeyPattern(key: string, value: Expr): NodePattern {
    NodePattern(None, [], Some([Entry(Identifier(key), value)]))
  }

  // For one inline property: a string or a boolean, a null or another value no
  // property can hold, or a float no integer equals.
  lemma SingleKeyScanIsTight(ctx: Context, key: string, value: Expr)
    requires IsConstant(value)
    ensures ScanAlwaysFaithful(ctx, OneKeyPattern(key, value)) <==> !HasTwin(ConstValue(value, ctx))
  {
    hide ScanAlwaysFaithful, HasTwin;
    var start := OneKeyPattern(key, value);
    var inline, v := Inline(EntriesOf(start.props)), ConstValue(value, ctx);
    assert inline == [(key, value)];
    assert EntryValue(inline, ctx, 0) == v;
    ScanIsTight(ctx, start);
    ScanKeyIs(inline, ctx, map[]);
    var values := ValuesOf(inline, ctx, key);
    assert values == {v} by {
      assert v in values;
    }
    OneKeyPinned(inline, ctx, key, v);
  }

  lemma OneKeyPinned(inline: InlineProps, ctx: Context, key: string, v: Value)
    requires |inline| == 1 && inline[0].0 == key && EntryValue(inline, ctx, 0) == v && IsConstant(inline[0].1)
    requires ValuesOf(inline, ctx, key) == {v}
    ensures EveryKeyPinned(inline, ctx) <==> !HasTwin(v)
  {
    ScanKeyIs(inline, ctx, map[]);
    var scan := ScanKeyOf(inline, ctx, map[]);
    if scan.Probe? {
      LookedUpIsEntry(inline, ctx, scan.props, key);
      assert ToValue(scan.props[key]) == v;
      assert forall k :: k in scan.props ==> k == key;
      TwinsExactly(v);
      if !HasTwin(v) {
        assert ValuesEqual(ToValue(scan.props[key]), v);
      }
    } else {
      assert AsScalar(EntryValue(inline, ctx, 0)).None?;
    }
  }

  // A key written twice in the start node's map is looked up by its last value
  // only, so a node that violates the first is still returned.
  lemma RepeatedKeyIsForgotten(ctx: Context)
    ensures var one, two := Literal(LInteger(1)), Literal(LInteger(2));
            var start := NodePattern(None, [], Some([Entry(Identifier("x"), one), Entry(Identifier("x"), two)]));
            var g := AddNode(EmptyGraph, [], map["x" := Int(2)]);
            && ScanReturns(g, ctx, None, Inline(EntriesOf(start.props)), Some([g.nodes[0]]))
            && !NodeSatisfies(start, g.nodes[0], ctx)
  {
    var one, two := Literal(LInteger(1)), Literal(LInteger(2));
    var entries := [Entry(Identifier("x"), one), Entry(Identifier("x"), two)];
    var inline := Inline(entries);
    assert entries[1..] == [entries[1]] && [entries[1]][1..] == [];
    assert Inline(entries[1..]) == [("x", two)];
    assert inline == [("x", one), ("x", two)];
    assert inline[1..] == [("x", two)] && inline[1..][1..] == [];
    var acc: Props := map["x" := Int(1)];
    assert ScanKeyOf(inline, ctx, map[]) == ScanKeyOf(inline[1..], ctx, acc);
    assert ScanKeyOf(inline[1..], ctx, acc) == ScanKeyOf(inline[1..][1..], ctx, acc["x" := Int(2)]);
    assert acc["x" := Int(2)] == map["x" := Int(2)];
    var g := AddNode(EmptyGraph, [], map["x" := Int(2)]);
    assert g.nodes == map[0 := g.nodes[0]];
    SingleNodeScan("x", Int(2), Int(2));
    assert !PropHolds(g.nodes[0].props, inline[0].0, inline[0].1, ctx);
  }
}
