// What the rows of an aggregation show: which input rows make a group, and what
// each item's column holds for it.

module AggregateRows {
  import opened GraphTypes
  import opened Sequences
  import opened Floats
  import opened Expressions
  import opened StableKeys
  import opened KeyClasses
  import opened Aggregation

  // --- Groups ---

  // Every grouping expression gives both rows a value of the same key.
  ghost predicate SameKeyValues(items: seq<Item>, a: Record, b: Record, ctx: Context) {
    forall k :: 0 <= k < |items| && items[k].KeyItem? ==>
      var x, y := Eval(items[k].e, a, ctx), Eval(items[k].e, b, ctx);
      x.Some? && y.Some? && StableKey(x.value) == StableKey(y.value)
  }

  predicate NoKeys(items: seq<Item>) {
    forall k :: 0 <= k < |items| ==> !items[k].KeyItem?
  }

  // The positions of the rows of each group, ascending; every row in one group,
  // with exactly the rows that share its keys; groups in the order of their
  // first rows. Without rows and keys there is one empty group.
  ghost predicate IsGrouping(items: seq<Item>, rows: seq<Record>, ctx: Context, classes: seq<seq<nat>>) {
    if rows == [] && NoKeys(items) then classes == [[]]
    else
      && (exists firsts :: StrictlySorted(firsts) && BeginWith(classes, firsts))
      && (forall p :: 0 <= p < |classes| ==> IsClass(items, rows, ctx, classes[p]))
      && (forall i :: 0 <= i < |rows| ==> InSome(classes, i))
  }

  predicate InSome(classes: seq<seq<nat>>, i: nat) {
    exists p :: 0 <= p < |classes| && i in classes[p]
  }

  ghost predicate BeginWith(classes: seq<seq<nat>>, firsts: seq<nat>) {
    |firsts| == |classes| && forall p :: 0 <= p < |classes| ==> classes[p] != [] && classes[p][0] == firsts[p]
  }

  ghost predicate IsClass(items: seq<Item>, rows: seq<Record>, ctx: Context, class_: seq<nat>) {
    && class_ != [] && StrictlySorted(class_) && (forall i :: i in class_ ==> i < |rows|)
    && forall j :: 0 <= j < |rows| ==> (j in class_ <==> class_[0] < |rows| && SameKeyValues(items, rows[class_[0]], rows[j], ctx))
  }

  // --- Columns ---

  // The values of the argument on the rows of a class, nulls left out.
  ghost predicate ArgumentValues(arg: Expr, rows: seq<Record>, class_: seq<nat>, ctx: Context, vals: seq<Value>) {
    exists at ::
      && StrictlySorted(at) && |vals| == |at|
      && (forall k :: k in at <==> 0 <= k < |class_| && class_[k] < |rows| && IsValue(Eval(arg, rows[class_[k]], ctx)))
      && (forall j :: 0 <= j < |at| ==>
            at[j] < |class_| && class_[at[j]] < |rows| && Eval(arg, rows[class_[at[j]]], ctx) == Some(vals[j]))
  }

  predicate IsValue(v: Option<Value>) {
    v.Some? && !v.value.Null?
  }

  // With DISTINCT the first value of each key, else all of them.
  ghost predicate AsCounted(all: seq<Value>, distinct: bool, vals: seq<Value>) {
    if !distinct then vals == all
    else exists at :: PickedAt(vals, all, at) && (forall k :: k in at <==> 0 <= k < |all| && IsNewKey(all, k))
  }

  predicate IsNewKey(all: seq<Value>, k: nat)
    requires k < |all|
  {
    forall j :: 0 <= j < k ==> StableKey(all[j]) != StableKey(all[k])
  }

  ghost predicate AggregateShown(agg: Aggregate, rows: seq<Record>, class_: seq<nat>, env: Env, v: Value) {
    if agg.CountRows? then ShowsNumber(|class_|, v)
    else exists all, vals ::
      ArgumentValues(agg.arg, rows, class_, env.ctx, all) && AsCounted(all, agg.distinct, vals) && ValuesShown(agg, vals, env, v)
  }

  predicate ShowsNumber(n: nat, v: Value) {
    n < 0x8000_0000_0000_0000 ==> v == Integer(n)
  }

  predicate ValuesShown(agg: Aggregate, vals: seq<Value>, env: Env, v: Value)
    requires !agg.CountRows?
  {
    match agg
    case Count(_, _) => ShowsNumber(|vals|, v)
    case Collect(_, _) => v == ListVal(vals)
    case Sum(_, _) => if AllIntegers(vals) then v.Integer? && v.i == Total(vals) else v == FloatVal(env.floatSum(vals))
  }

  // A grouping item shows its value on the first row of the group.
  ghost predicate GroupShown(items: seq<Item>, columns: seq<string>, rows: seq<Record>, env: Env, class_: seq<nat>, row: Record)
    requires |columns| == |items|
  {
    forall k :: 0 <= k < |items| ==> columns[k] in row && ItemShown(items[k], rows, env, class_, row[columns[k]])
  }

  ghost predicate ItemShown(item: Item, rows: seq<Record>, env: Env, class_: seq<nat>, v: Value) {
    match item
    case KeyItem(e) => class_ != [] && class_[0] < |rows| && Eval(e, rows[class_[0]], env.ctx) == Some(v)
    case AggregateItem(agg) => AggregateShown(agg, rows, class_, env, v)
  }

  // --- Key tuples ---

  lemma {:induction false} KeyTupleMeans(keys: seq<Expr>, rec: Record, ctx: Context, p: nat)
    requires KeyTuple(keys, rec, ctx).Some? && p < |keys|
    ensures Eval(keys[p], rec, ctx) == Some(KeyTuple(keys, rec, ctx).value[p])
    decreases |keys|
  {
    if p < |keys| - 1 {
      KeyTupleMeans(Init(keys), rec, ctx, p);
    }
  }

  lemma {:induction false} KeyTuplesMean(keys: seq<Expr>, rows: seq<Record>, ctx: Context, i: nat)
    requires KeyTuples(keys, rows, ctx).Some? && i < |rows|
    ensures KeyTuple(keys, rows[i], ctx) == Some(KeyTuples(keys, rows, ctx).value[i])
    decreases |rows|
  {
    hide KeyTuple;
    if i < |rows| - 1 {
      KeyTuplesMean(keys, Init(rows), ctx, i);
    }
  }

  // Rows share their key tuples exactly when they share the values item by item.
  lemma TuplesShareKeys(items: seq<Item>, rows: seq<Record>, ctx: Context, i: nat, j: nat)
    requires KeyTuples(KeyExprs(items), rows, ctx).Some? && i < |rows| && j < |rows|
    ensures var ts := KeyTuples(KeyExprs(items), rows, ctx).value;
            SameKeys(ts[i], ts[j]) <==> SameKeyValues(items, rows[i], rows[j], ctx)
  {
    hide KeyTuples, KeyTuple, StableKey, Eval, PositionsOf;
    var keys, at := KeyExprs(items), PositionsOf(items, true);
    var ts := KeyTuples(keys, rows, ctx).value;
    PositionsAt(items, true);
    KeyTuplesMean(keys, rows, ctx, i);
    KeyTuplesMean(keys, rows, ctx, j);
    forall p | 0 <= p < |keys|
      ensures Eval(items[at[p]].e, rows[i], ctx) == Some(ts[i][p]) && Eval(items[at[p]].e, rows[j], ctx) == Some(ts[j][p])
    {
      KeyTupleMeans(keys, rows[i], ctx, p);
      KeyTupleMeans(keys, rows[j], ctx, p);
    }
    var x, y := StableKeysOf(ts[i]), StableKeysOf(ts[j]);
    if SameKeys(ts[i], ts[j]) {
      forall k | 0 <= k < |items| && items[k].KeyItem?
        ensures var a, b := Eval(items[k].e, rows[i], ctx), Eval(items[k].e, rows[j], ctx);
                a.Some? && b.Some? && StableKey(a.value) == StableKey(b.value)
      {
        assert k in at;
        var p :| 0 <= p < |at| && at[p] == k;
        assert x[p] == y[p];
      }
    }
    if SameKeyValues(items, rows[i], rows[j], ctx) {
      forall p | 0 <= p < |keys| ensures x[p] == y[p] {
        assert items[at[p]].KeyItem?;
      }
    }
  }

  // --- The groups are the classes ---

  function ClassesOf(tuples: seq<Tuple>): (r: seq<seq<nat>>)
    ensures |r| == |FirstIndices(tuples)|
  {
    FirstsAt(tuples);
    seq(|FirstIndices(tuples)|, p requires 0 <= p < |FirstIndices(tuples)| => ClassOf(tuples, tuples[FirstIndices(tuples)[p]]))
  }

  // A class begins with the first of its tuples.
  lemma ClassBegins(tuples: seq<Tuple>, p: nat)
    requires p < |FirstIndices(tuples)|
    ensures ClassesOf(tuples)[p] != [] && ClassesOf(tuples)[p][0] == FirstIndices(tuples)[p]
  {
    FirstsAt(tuples);
    var f := FirstIndices(tuples)[p];
    var c := ClassOf(tuples, tuples[f]);
    assert f in FirstIndices(tuples);
    assert f in c && c[0] in c;
    assert SameKeys(tuples[c[0]], tuples[f]);
    var k :| 0 <= k < |c| && c[k] == f;
    assert c[0] <= f && IsFirst(tuples, f);
    assert !(c[0] < f);
  }

  lemma ClassesGroup(items: seq<Item>, rows: seq<Record>, ctx: Context)
    requires KeyTuples(KeyExprs(items), rows, ctx).Some? && !(rows == [] && NoKeys(items))
    ensures IsGrouping(items, rows, ctx, ClassesOf(KeyTuples(KeyExprs(items), rows, ctx).value))
  {
    hide KeyTuples, KeyExprs, SameKeyValues, IsClass, ClassesOf, FirstIndices;
    var ts := KeyTuples(KeyExprs(items), rows, ctx).value;
    var firsts, classes := FirstIndices(ts), ClassesOf(ts);
    forall p | 0 <= p < |classes|
      ensures classes[p] != [] && classes[p][0] == firsts[p] && IsClass(items, rows, ctx, classes[p])
    {
      ClassBegins(ts, p);
      ClassIs(items, rows, ctx, p);
    }
    assert BeginWith(classes, firsts);
    forall i | 0 <= i < |rows| ensures InSome(classes, i) {
      ClassHolds(ts, i);
    }
  }

  lemma ClassHolds(ts: seq<Tuple>, i: nat)
    requires i < |ts|
    ensures InSome(ClassesOf(ts), i)
  {
    FirstsAt(ts);
    OneFirstPerClass(ts, i);
    var f :| f in FirstIndices(ts) && f <= i && SameKeys(ts[f], ts[i]);
    var p :| 0 <= p < |FirstIndices(ts)| && FirstIndices(ts)[p] == f;
    SameKeysSymmetric(ts[f], ts[i]);
    assert i in ClassesOf(ts)[p];
  }

  lemma ClassIs(items: seq<Item>, rows: seq<Record>, ctx: Context, p: nat)
    requires KeyTuples(KeyExprs(items), rows, ctx).Some?
    requires p < |ClassesOf(KeyTuples(KeyExprs(items), rows, ctx).value)|
    ensures IsClass(items, rows, ctx, ClassesOf(KeyTuples(KeyExprs(items), rows, ctx).value)[p])
  {
    hide KeyTuples, KeyExprs, SameKeys, SameKeyValues;
    var ts := KeyTuples(KeyExprs(items), rows, ctx).value;
    var f := FirstIndices(ts)[p];
    ClassBegins(ts, p);
    FirstsAt(ts);
    forall j | 0 <= j < |rows| ensures j in ClassesOf(ts)[p] <==> SameKeyValues(items, rows[f], rows[j], ctx) {
      TuplesShareKeys(items, rows, ctx, f, j);
      SameKeysSymmetric(ts[j], ts[f]);
    }
  }

  lemma SameKeysSymmetric(x: Tuple, y: Tuple)
    ensures SameKeys(x, y) <==> SameKeys(y, x)
  {
  }

  // --- Argument values ---

  lemma {:induction false} NonNullMeans(arg: Expr, rows: seq<Record>, class_: seq<nat>, members: seq<Record>, ctx: Context)
    returns (at: seq<nat>)
    requires |members| == |class_| && forall k :: 0 <= k < |class_| ==> class_[k] < |rows| && members[k] == rows[class_[k]]
    requires NonNullValues(arg, members, ctx).Some?
    ensures var vals := NonNullValues(arg, members, ctx).value;
            && StrictlySorted(at) && |vals| == |at|
            && (forall k :: k in at <==> 0 <= k < |class_| && class_[k] < |rows| && IsValue(Eval(arg, rows[class_[k]], ctx)))
            && forall j :: 0 <= j < |at| ==>
                 (at[j] < |class_| && class_[at[j]] < |rows| && Eval(arg, rows[class_[at[j]]], ctx) == Some(vals[j]))
    decreases |members|
  {
    at := [];
    if members != [] {
      hide Eval;
      var n := |members| - 1;
      at := NonNullMeans(arg, rows, Init(class_), Init(members), ctx);
      forall j | 0 <= j < |at| ensures at[j] < n { assert at[j] in at; }
      assert forall k :: 0 <= k < n ==> Init(class_)[k] == class_[k];
      if IsValue(Eval(arg, Last(members), ctx)) {
        at := at + [n];
      }
    }
  }

  lemma CountedMeans(vals: seq<Value>, distinct: bool)
    ensures AsCounted(vals, distinct, if distinct then FirstRows(vals, Singles(vals)) else vals)
  {
    if distinct {
      hide StableKey;
      var at := FirstIndices(Singles(vals));
      FirstsAt(Singles(vals));
      forall i, j | 0 <= i < |vals| && 0 <= j < |vals|
        ensures SameKeys(Singles(vals)[i], Singles(vals)[j]) <==> StableKey(vals[i]) == StableKey(vals[j])
      {
        SinglesShare(vals[i], vals[j]);
      }
      assert PickedAt(FirstRows(vals, Singles(vals)), vals, at);
    }
  }

  lemma SinglesShare(v: Value, w: Value)
    ensures SameKeys([v], [w]) <==> StableKey(v) == StableKey(w)
  {
    hide StableKey;
    assert StableKeysOf([v]) == [StableKey(v)] && StableKeysOf([w]) == [StableKey(w)];
  }

  lemma AggregateMeans(agg: Aggregate, rows: seq<Record>, class_: seq<nat>, members: seq<Record>, env: Env)
    requires |members| == |class_| && forall k :: 0 <= k < |class_| ==> class_[k] < |rows| && members[k] == rows[class_[k]]
    requires AggregateValue(agg, members, env).Some?
    ensures AggregateShown(agg, rows, class_, env, AggregateValue(agg, members, env).value)
  {
    if !agg.CountRows? {
      hide NonNullValues, FirstRows, AsCounted, Total, Eval, ArgumentValues, AllIntegers, AggregateValue, ValuesShown;
      ValueIsShown(agg, members, env);
      var all := NonNullValues(agg.arg, members, env.ctx).value;
      var vals := CollectedValues(agg.arg, members, agg.distinct, env.ctx).value;
      CountedMeans(all, agg.distinct);
      ArgumentsMean(agg.arg, rows, class_, members, env.ctx);
      assert vals == if agg.distinct then FirstRows(all, Singles(all)) else all;
    }
  }

  lemma ValueIsShown(agg: Aggregate, members: seq<Record>, env: Env)
    requires !agg.CountRows? && AggregateValue(agg, members, env).Some?
    ensures var vals := CollectedValues(agg.arg, members, agg.distinct, env.ctx);
            vals.Some? && ValuesShown(agg, vals.value, env, AggregateValue(agg, members, env).value)
  {
    hide CollectedValues, Total;
  }

  lemma ArgumentsMean(arg: Expr, rows: seq<Record>, class_: seq<nat>, members: seq<Record>, ctx: Context)
    requires |members| == |class_| && forall k :: 0 <= k < |class_| ==> class_[k] < |rows| && members[k] == rows[class_[k]]
    requires NonNullValues(arg, members, ctx).Some?
    ensures ArgumentValues(arg, rows, class_, ctx, NonNullValues(arg, members, ctx).value)
  {
    hide NonNullValues, Eval, IsValue;
    var at := NonNullMeans(arg, rows, class_, members, ctx);
  }

  // --- Rows ---

  lemma {:induction false} KeyColumnsMean(at: seq<nat>, columns: seq<string>, key: Tuple, p: nat)
    requires |at| == |key| && forall k :: 0 <= k < |at| ==> at[k] < |columns|
    requires NoDup(columns) && StrictlySorted(at) && p < |at|
    ensures columns[at[p]] in KeyColumns(at, columns, key) && KeyColumns(at, columns, key)[columns[at[p]]] == key[p]
    decreases |at|
  {
    if p < |at| - 1 {
      KeyColumnsMean(Init(at), columns, Init(key), p);
    }
  }

  lemma {:induction false} KeyColumnStays(items: seq<Item>, at: seq<nat>, columns: seq<string>, keyRow: Record, g: Group, env: Env, c: nat)
    requires |columns| == |items| && NoDup(columns) && c < |columns| && c !in at
    requires forall k :: 0 <= k < |at| ==> at[k] < |items| && items[at[k]].AggregateItem?
    requires OutputRow(items, at, columns, keyRow, g, env).Some? && columns[c] in keyRow
    ensures var row := OutputRow(items, at, columns, keyRow, g, env).value;
            columns[c] in row && row[columns[c]] == keyRow[columns[c]]
    decreases |at|
  {
    hide AggregateValue;
    if at != [] {
      assert Last(at) in at;
      KeyColumnStays(items, Init(at), columns, keyRow, g, env, c);
    }
  }

  lemma {:induction false} OutputRowAt(items: seq<Item>, columns: seq<string>, groups: seq<Group>, env: Env, p: nat)
    requires |columns| == |items| && p < |groups|
    requires forall k :: 0 <= k < |groups| ==> |groups[k].key| == |PositionsOf(items, true)|
    requires OutputRows(items, columns, groups, env).Some?
    ensures GroupRow(items, columns, groups[p], env) == Some(OutputRows(items, columns, groups, env).value[p])
    decreases |groups|
  {
    hide GroupRow, PositionsOf;
    OutputRowsSplit(items, columns, groups, env);
    if p < |groups| - 1 {
      OutputRowAt(items, columns, Init(groups), env, p);
    }
  }

  // The row of a group whose key is the tuple of its first row.
  lemma GroupRowMeans(items: seq<Item>, columns: seq<string>, rows: seq<Record>, env: Env, class_: seq<nat>, g: Group)
    requires |columns| == |items| && NoDup(columns) && |g.key| == |PositionsOf(items, true)|
    requires |g.members| == |class_| && forall k :: 0 <= k < |class_| ==> class_[k] < |rows| && g.members[k] == rows[class_[k]]
    requires !NoKeys(items) ==> class_ != [] && KeyTuple(KeyExprs(items), rows[class_[0]], env.ctx) == Some(g.key)
    requires GroupRow(items, columns, g, env).Some?
    ensures GroupShown(items, columns, rows, env, class_, GroupRow(items, columns, g, env).value)
  {
    hide PositionsOf, KeyTuple, AggregateShown, AggregateValue, Eval;
    var row := GroupRow(items, columns, g, env).value;
    var keyAt, aggAt := PositionsOf(items, true), PositionsOf(items, false);
    PositionsAt(items, true);
    PositionsAt(items, false);
    var keyRow := KeyColumns(keyAt, columns, g.key);
    forall k | 0 <= k < |items|
      ensures columns[k] in row && ItemShown(items[k], rows, env, class_, row[columns[k]])
    {
      if items[k].KeyItem? {
        assert k in keyAt && k !in aggAt && !NoKeys(items);
        var p :| 0 <= p < |keyAt| && keyAt[p] == k;
        KeyColumnsMean(keyAt, columns, g.key, p);
        KeyColumnStays(items, aggAt, columns, keyRow, g, env, k);
        KeyTupleMeans(KeyExprs(items), rows[class_[0]], env.ctx, p);
      } else {
        AggregateInRow(items, aggAt, columns, keyRow, g, env, k);
        AggregateMeans(items[k].agg, rows, class_, g.members, env);
      }
    }
  }

  // Every output row stands for a group of input rows and shows, column by
  // column, the group's key values and aggregates.
  lemma AggregationMeans(items: seq<Item>, columns: seq<string>, rows: seq<Record>, env: Env) returns (classes: seq<seq<nat>>)
    requires |columns| == |items| && NoDup(columns) && Aggregated(items, columns, rows, env).Some?
    ensures var out := Aggregated(items, columns, rows, env).value;
            && IsGrouping(items, rows, env.ctx, classes) && |out| == |classes|
            && forall p :: 0 <= p < |out| ==> GroupShown(items, columns, rows, env, classes[p], out[p])
  {
    hide PositionsOf, KeyTuples, KeyTuple, GroupShown, IsGrouping, GroupRow, OutputRows, KeyExprs;
    var ts := KeyTuples(KeyExprs(items), rows, env.ctx).value;
    var groups, out := EffectiveGroups(items, rows, ts), Aggregated(items, columns, rows, env).value;
    KeysOrNone(items);
    if rows == [] && NoKeys(items) {
      classes := [[]];
      NothingGrouped(items, rows, env.ctx);
      assert groups == [Group([], [])];
    } else {
      classes := ClassesOf(ts);
      ClassesGroup(items, rows, env.ctx);
      assert groups == GroupsOf(rows, ts);
    }
    forall p | 0 <= p < |out| ensures GroupShown(items, columns, rows, env, classes[p], out[p]) {
      OutputRowAt(items, columns, groups, env, p);
      if !(rows == [] && NoKeys(items)) {
        ClassBegins(ts, p);
        FirstsAt(ts);
        KeyTuplesMean(KeyExprs(items), rows, env.ctx, FirstIndices(ts)[p]);
        MembersAre(rows, ts, p);
      }
      GroupRowMeans(items, columns, rows, env, classes[p], groups[p]);
    }
  }

  lemma MembersAre(rows: seq<Record>, ts: seq<Tuple>, p: nat)
    requires |rows| == |ts| && p < |FirstIndices(ts)|
    ensures var class_, g := ClassesOf(ts)[p], GroupsOf(rows, ts)[p];
            && FirstIndices(ts)[p] < |ts| && g.key == ts[FirstIndices(ts)[p]] && |g.members| == |class_|
            && forall k :: 0 <= k < |class_| ==> class_[k] < |rows| && g.members[k] == rows[class_[k]]
  {
    FirstsAt(ts);
    var class_ := ClassesOf(ts)[p];
    assert forall k :: 0 <= k < |class_| ==> class_[k] in class_;
  }

  lemma KeysOrNone(items: seq<Item>)
    ensures NoKeys(items) <==> PositionsOf(items, true) == []
  {
    var at := PositionsOf(items, true);
    if at != [] { assert at[0] in at; }
    if !NoKeys(items) {
      var k :| 0 <= k < |items| && items[k].KeyItem?;
      assert k in at;
    }
  }

  lemma NothingGrouped(items: seq<Item>, rows: seq<Record>, ctx: Context)
    requires rows == [] && NoKeys(items)
    ensures IsGrouping(items, rows, ctx, [[]])
    ensures forall ts: seq<Tuple> :: ts == [] ==> GroupsOf(rows, ts) == []
  {
    NoGroups();
  }

  // --- Errors ---

  // Every key and every argument evaluates on every row.
  ghost predicate AllEvaluate(items: seq<Item>, rows: seq<Record>, ctx: Context) {
    forall i, k :: 0 <= i < |rows| && 0 <= k < |items| ==> ItemEvaluates(items[k], rows[i], ctx)
  }

  predicate ItemEvaluates(item: Item, rec: Record, ctx: Context) {
    match item
    case KeyItem(e) => Eval(e, rec, ctx).Some?
    case AggregateItem(agg) => agg.CountRows? || Eval(agg.arg, rec, ctx).Some?
  }

  lemma {:induction false} KeysEvaluate(keys: seq<Expr>, rows: seq<Record>, ctx: Context)
    ensures KeyTuples(keys, rows, ctx).Some? <==>
              forall i, p :: 0 <= i < |rows| && 0 <= p < |keys| ==> Eval(keys[p], rows[i], ctx).Some?
    decreases |rows|
  {
    hide KeyTuple, Eval;
    if rows != [] {
      KeysEvaluate(keys, Init(rows), ctx);
      KeyEvaluates(keys, Last(rows), ctx);
      assert forall i :: 0 <= i < |rows| - 1 ==> Init(rows)[i] == rows[i];
    }
  }

  lemma {:induction false} KeyEvaluates(keys: seq<Expr>, rec: Record, ctx: Context)
    ensures KeyTuple(keys, rec, ctx).Some? <==> forall p :: 0 <= p < |keys| ==> Eval(keys[p], rec, ctx).Some?
    decreases |keys|
  {
    hide Eval;
    if keys != [] {
      KeyEvaluates(Init(keys), rec, ctx);
      assert forall p :: 0 <= p < |keys| - 1 ==> Init(keys)[p] == keys[p];
    }
  }

  lemma {:induction false} ArgumentsEvaluate(arg: Expr, members: seq<Record>, ctx: Context)
    ensures NonNullValues(arg, members, ctx).Some? <==> forall i :: 0 <= i < |members| ==> Eval(arg, members[i], ctx).Some?
    decreases |members|
  {
    hide Eval;
    if members != [] {
      ArgumentsEvaluate(arg, Init(members), ctx);
      assert forall i :: 0 <= i < |members| - 1 ==> Init(members)[i] == members[i];
    }
  }

  lemma {:induction false} OutputRowSucceeds(items: seq<Item>, at: seq<nat>, columns: seq<string>, keyRow: Record, g: Group, env: Env)
    requires |columns| == |items| && forall k :: 0 <= k < |at| ==> at[k] < |items| && items[at[k]].AggregateItem?
    requires forall i, k :: 0 <= i < |g.members| && 0 <= k < |items| ==> ItemEvaluates(items[k], g.members[i], env.ctx)
    requires forall k :: 0 <= k < |items| ==> !(items[k].AggregateItem? && items[k].agg.Sum?)
    ensures OutputRow(items, at, columns, keyRow, g, env).Some?
    decreases |at|
  {
    if at != [] {
      var item := items[Last(at)];
      OutputRowSucceeds(items, Init(at), columns, keyRow, g, env);
      if !item.agg.CountRows? {
        ArgumentsEvaluate(item.agg.arg, g.members, env.ctx);
        forall i | 0 <= i < |g.members| ensures Eval(item.agg.arg, g.members[i], env.ctx).Some? {
          assert ItemEvaluates(item, g.members[i], env.ctx);
        }
      }
    }
  }

  lemma {:induction false} OutputRowsSucceed(items: seq<Item>, columns: seq<string>, groups: seq<Group>, env: Env)
    requires |columns| == |items| && forall k :: 0 <= k < |groups| ==> |groups[k].key| == |PositionsOf(items, true)|
    requires forall p :: 0 <= p < |groups| ==> GroupRow(items, columns, groups[p], env).Some?
    ensures OutputRows(items, columns, groups, env).Some?
    decreases |groups|
  {
    hide GroupRow, PositionsOf;
    if groups != [] {
      OutputRowsSucceed(items, columns, Init(groups), env);
    }
  }

  // A key that is an error on some row fails the aggregation; it succeeds when
  // keys and arguments evaluate on every row and nothing is summed.
  lemma AggregationSucceeds(items: seq<Item>, columns: seq<string>, rows: seq<Record>, env: Env)
    requires |columns| == |items|
    ensures (exists i, k :: 0 <= i < |rows| && 0 <= k < |items| && items[k].KeyItem? && !ItemEvaluates(items[k], rows[i], env.ctx)) ==>
              Aggregated(items, columns, rows, env).None?
    ensures AllEvaluate(items, rows, env.ctx) && (forall k :: 0 <= k < |items| ==> !(items[k].AggregateItem? && items[k].agg.Sum?)) ==>
              Aggregated(items, columns, rows, env).Some?
  {
    hide KeyTuples, GroupRow, OutputRows, PositionsOf, GroupsOf;
    var keys, at := KeyExprs(items), PositionsOf(items, true);
    KeysEvaluate(keys, rows, env.ctx);
    PositionsAt(items, true);
    if i, k :| 0 <= i < |rows| && 0 <= k < |items| && items[k].KeyItem? && !ItemEvaluates(items[k], rows[i], env.ctx) {
      assert k in at;
      var p :| 0 <= p < |at| && at[p] == k;
      assert keys[p] == items[k].e;
    }
    if AllEvaluate(items, rows, env.ctx) && (forall k :: 0 <= k < |items| ==> !(items[k].AggregateItem? && items[k].agg.Sum?)) {
      forall i, p | 0 <= i < |rows| && 0 <= p < |keys| ensures Eval(keys[p], rows[i], env.ctx).Some? {
        assert ItemEvaluates(items[at[p]], rows[i], env.ctx);
      }
      var ts := KeyTuples(keys, rows, env.ctx).value;
      var groups := EffectiveGroups(items, rows, ts);
      forall p | 0 <= p < |groups| ensures GroupRow(items, columns, groups[p], env).Some? {
        GroupSucceeds(items, columns, rows, ts, env, p);
      }
      OutputRowsSucceed(items, columns, groups, env);
    }
  }

  lemma GroupSucceeds(items: seq<Item>, columns: seq<string>, rows: seq<Record>, ts: seq<Tuple>, env: Env, p: nat)
    requires |columns| == |items| && |rows| == |ts| && forall k :: 0 <= k < |ts| ==> |ts[k]| == |PositionsOf(items, true)|
    requires AllEvaluate(items, rows, env.ctx) && forall k :: 0 <= k < |items| ==> !(items[k].AggregateItem? && items[k].agg.Sum?)
    requires p < |EffectiveGroups(items, rows, ts)|
    ensures GroupRow(items, columns, EffectiveGroups(items, rows, ts)[p], env).Some?
  {
    hide PositionsOf, ItemEvaluates;
    var g := EffectiveGroups(items, rows, ts)[p];
    PositionsAt(items, true);
    PositionsAt(items, false);
    if p < |GroupsOf(rows, ts)| {
      MembersAre(rows, ts, p);
    }
    OutputRowSucceeds(items, PositionsOf(items, false), columns, KeyColumns(PositionsOf(items, true), columns, g.key), g, env);
  }

  // The mathematical sum adds up the integers.
  lemma {:induction false} TotalAdds(a: seq<Value>, b: seq<Value>, i: I64)
    ensures Total(a + b) == Total(a) + Total(b) && Total([Integer(i)]) == i
    decreases |b|
  {
    assert Init([Integer(i)]) == [];
    if b == [] {
      assert a + b == a;
    } else {
      assert Init(a + b) == a + Init(b) && Last(a + b) == Last(b);
      TotalAdds(a, Init(b), i);
    }
  }
}
