// egrph-core/src/executor/aggregation.rs: grouping and the aggregates that
// count, sum and collect.

module Aggregation {
  import opened GraphTypes
  import opened Sequences
  import opened Floats
  import opened Expressions
  import opened StableKeys
  import opened KeyClasses

  datatype Aggregate =
    | CountRows
    | Count(arg: Expr, distinct: bool)
    | Sum(arg: Expr, distinct: bool)
    | Collect(arg: Expr, distinct: bool)

  datatype Item = KeyItem(e: Expr) | AggregateItem(agg: Aggregate)

  datatype Group = Group(key: Tuple, members: seq<Record>)

  // Addition of a column with a float in it is left to the caller: the sum of
  // `to_f64` of the values, in order.
  datatype Env = Env(ctx: Context, floatSum: seq<Value> -> F64)

  // --- Grouping ---

  lemma FirstsAt(tuples: seq<Tuple>)
    ensures forall p :: 0 <= p < |FirstIndices(tuples)| ==> FirstIndices(tuples)[p] < |tuples|
  {
    forall p | 0 <= p < |FirstIndices(tuples)| ensures FirstIndices(tuples)[p] < |tuples| {
      assert FirstIndices(tuples)[p] in FirstIndices(tuples);
    }
  }

  // The classes of the rows' key tuples, by first occurrence, rows in order.
  function GroupsOf(rows: seq<Record>, tuples: seq<Tuple>): (r: seq<Group>)
    requires |rows| == |tuples|
    ensures |r| == |FirstIndices(tuples)|
    ensures forall p :: 0 <= p < |r| ==> r[p].key in tuples && |r[p].members| <= |rows|
  {
    var firsts := FirstIndices(tuples);
    FirstsAt(tuples);
    seq(|firsts|, p requires 0 <= p < |firsts| =>
      Group(tuples[firsts[p]], Pick(rows, ClassOf(tuples, tuples[firsts[p]]))))
  }

  lemma NoGroups()
    ensures GroupsOf([], []) == []
  {
  }

  // Each row is in the group whose key its own tuple has, and in no other.
  lemma EveryRowHasOneGroup(rows: seq<Record>, tuples: seq<Tuple>, i: nat)
    requires |rows| == |tuples| && i < |rows|
    ensures exists p :: 0 <= p < |GroupsOf(rows, tuples)| && SameKeys(tuples[i], GroupsOf(rows, tuples)[p].key)
    ensures forall p, q | 0 <= p < |GroupsOf(rows, tuples)| && 0 <= q < |GroupsOf(rows, tuples)| ::
              SameKeys(tuples[i], GroupsOf(rows, tuples)[p].key) && SameKeys(tuples[i], GroupsOf(rows, tuples)[q].key) ==> p == q
    ensures forall p :: 0 <= p < |GroupsOf(rows, tuples)| ==>
              GroupsOf(rows, tuples)[p].members == Pick(rows, ClassOf(tuples, GroupsOf(rows, tuples)[p].key))
  {
    hide StableKeysOf, ClassOf, IsFirst;
    var firsts, groups := FirstIndices(tuples), GroupsOf(rows, tuples);
    OneFirstPerClass(tuples, i);
    var f :| f in firsts && SameKeys(tuples[f], tuples[i]);
    var p :| 0 <= p < |firsts| && firsts[p] == f;
    assert SameKeys(tuples[i], groups[p].key);
    forall p, q | 0 <= p < |groups| && 0 <= q < |groups|
              && SameKeys(tuples[i], groups[p].key) && SameKeys(tuples[i], groups[q].key) ensures p == q {
      assert firsts[p] in firsts && firsts[q] in firsts;
      assert firsts[p] == firsts[q];
    }
  }

  // Two rows are in one group exactly when their key tuples have the same keys.
  lemma SameGroupExactly(rows: seq<Record>, tuples: seq<Tuple>, i: nat, j: nat)
    requires |rows| == |tuples| && i < |rows| && j < |rows|
    ensures SameKeys(tuples[i], tuples[j]) <==>
            exists p :: 0 <= p < |GroupsOf(rows, tuples)| &&
              SameKeys(tuples[i], GroupsOf(rows, tuples)[p].key) && SameKeys(tuples[j], GroupsOf(rows, tuples)[p].key)
  {
    EveryRowHasOneGroup(rows, tuples, i);
    var p :| 0 <= p < |GroupsOf(rows, tuples)| && SameKeys(tuples[i], GroupsOf(rows, tuples)[p].key);
  }

  lemma FirstsSnoc(tuples: seq<Tuple>)
    requires tuples != []
    ensures FirstIndices(tuples) ==
            FirstIndices(Init(tuples)) + if IsFirst(tuples, |tuples| - 1) then [|tuples| - 1] else []
  {
  }

  lemma OldGroup(rows: seq<Record>, tuples: seq<Tuple>, p: nat)
    requires |rows| == |tuples| && rows != [] && p < |GroupsOf(Init(rows), Init(tuples))|
    ensures p < |GroupsOf(rows, tuples)|
    ensures var g := GroupsOf(Init(rows), Init(tuples))[p];
            GroupsOf(rows, tuples)[p] ==
            Group(g.key, g.members + if SameKeys(Last(tuples), g.key) then [Last(rows)] else [])
  {
    hide SameKeys, ClassOf, IsFirst, FirstIndices;
    var firsts := FirstIndices(Init(tuples));
    FirstsSnoc(tuples);
    assert firsts[p] in firsts && FirstIndices(tuples)[p] == firsts[p];
    ClassSnoc(rows, tuples, tuples[firsts[p]]);
  }

  lemma LastGroup(rows: seq<Record>, tuples: seq<Tuple>)
    requires |rows| == |tuples| && rows != [] && IsFirst(tuples, |tuples| - 1)
    ensures |GroupsOf(rows, tuples)| == |GroupsOf(Init(rows), Init(tuples))| + 1
    ensures Last(GroupsOf(rows, tuples)) == Group(Last(tuples), [Last(rows)])
  {
    hide StableKeysOf, ClassOf, FirstIndices;
    FirstsSnoc(tuples);
    NewClassIsEmpty(tuples);
    ClassSnoc(rows, tuples, Last(tuples));
    assert Last(FirstIndices(tuples)) == |tuples| - 1;
    assert Pick(Init(rows), []) + [Last(rows)] == [Last(rows)];
  }

  lemma NewKeyDiffers(rows: seq<Record>, tuples: seq<Tuple>, p: nat)
    requires |rows| == |tuples| && rows != [] && IsFirst(tuples, |tuples| - 1)
    requires p < |GroupsOf(Init(rows), Init(tuples))|
    ensures !SameKeys(Last(tuples), GroupsOf(Init(rows), Init(tuples))[p].key)
  {
    hide StableKeysOf, ClassOf, FirstIndices;
    var firsts := FirstIndices(Init(tuples));
    assert firsts[p] in firsts && !SameKeys(tuples[firsts[p]], Last(tuples));
    assert GroupsOf(Init(rows), Init(tuples))[p].key == tuples[firsts[p]];
  }

  lemma NewGroup(rows: seq<Record>, tuples: seq<Tuple>)
    requires |rows| == |tuples| && rows != [] && IsFirst(tuples, |tuples| - 1)
    ensures GroupsOf(rows, tuples) == GroupsOf(Init(rows), Init(tuples)) + [Group(Last(tuples), [Last(rows)])]
  {
    hide GroupsOf, SameKeys, ClassOf, FirstIndices, IsFirst;
    var before, all := GroupsOf(Init(rows), Init(tuples)), GroupsOf(rows, tuples);
    LastGroup(rows, tuples);
    forall p | 0 <= p < |before| ensures all[p] == before[p] {
      OldGroup(rows, tuples, p);
      NewKeyDiffers(rows, tuples, p);
      assert before[p].members + [] == before[p].members;
    }
  }

  lemma NewClassIsEmpty(tuples: seq<Tuple>)
    requires tuples != [] && IsFirst(tuples, |tuples| - 1)
    ensures ClassOf(Init(tuples), Last(tuples)) == []
  {
    forall i: nat ensures i !in ClassOf(Init(tuples), Last(tuples)) {
      assert i < |tuples| - 1 ==> Init(tuples)[i] == tuples[i];
    }
    NonEmptyHasMember(ClassOf(Init(tuples), Last(tuples)));
  }

  lemma GroupKeysApart(rows: seq<Record>, tuples: seq<Tuple>, p: nat, q: nat)
    requires |rows| == |tuples| && p < q < |GroupsOf(rows, tuples)|
    ensures !SameKeys(GroupsOf(rows, tuples)[p].key, GroupsOf(rows, tuples)[q].key)
  {
    hide StableKeysOf, ClassOf, FirstIndices;
    var firsts := FirstIndices(tuples);
    assert firsts[p] in firsts && firsts[q] in firsts && firsts[p] < firsts[q];
  }

  lemma GrownGroup(rows: seq<Record>, tuples: seq<Tuple>, p: nat)
    requires |rows| == |tuples| && rows != [] && p < |GroupsOf(Init(rows), Init(tuples))|
    requires SameKeys(Last(tuples), GroupsOf(Init(rows), Init(tuples))[p].key)
    ensures !IsFirst(tuples, |tuples| - 1)
    ensures var before := GroupsOf(Init(rows), Init(tuples));
            GroupsOf(rows, tuples) == before[p := Group(before[p].key, before[p].members + [Last(rows)])]
  {
    hide StableKeysOf, ClassOf, FirstIndices, GroupsOf;
    var before, all := GroupsOf(Init(rows), Init(tuples)), GroupsOf(rows, tuples);
    SharedKeyIsNotFirst(rows, tuples, p);
    forall k | 0 <= k < |before| ensures all[k] == before[p := Group(before[p].key, before[p].members + [Last(rows)])][k] {
      OldGroup(rows, tuples, k);
      if k < p {
        GroupKeysApart(Init(rows), Init(tuples), k, p);
      } else if p < k {
        GroupKeysApart(Init(rows), Init(tuples), p, k);
      }
      assert before[k].members + [] == before[k].members;
    }
  }

  lemma SharedKeyIsNotFirst(rows: seq<Record>, tuples: seq<Tuple>, p: nat)
    requires |rows| == |tuples| && rows != [] && p < |GroupsOf(Init(rows), Init(tuples))|
    requires SameKeys(Last(tuples), GroupsOf(Init(rows), Init(tuples))[p].key)
    ensures !IsFirst(tuples, |tuples| - 1)
    ensures |GroupsOf(rows, tuples)| == |GroupsOf(Init(rows), Init(tuples))|
  {
    hide StableKeysOf, ClassOf, FirstIndices;
    var firsts := FirstIndices(Init(tuples));
    assert firsts[p] in firsts && SameKeys(tuples[firsts[p]], Last(tuples));
    FirstsSnoc(tuples);
  }

  lemma KnownKeyHasGroup(rows: seq<Record>, tuples: seq<Tuple>)
    requires |rows| == |tuples| && rows != [] && !IsFirst(tuples, |tuples| - 1)
    ensures exists p :: 0 <= p < |GroupsOf(Init(rows), Init(tuples))|
              && SameKeys(Last(tuples), GroupsOf(Init(rows), Init(tuples))[p].key)
  {
    hide StableKeysOf, ClassOf, FirstIndices, GroupsOf;
    var j :| 0 <= j < |tuples| - 1 && SameKeys(tuples[j], Last(tuples));
    EveryRowHasOneGroup(Init(rows), Init(tuples), j);
  }

  function GroupSizes(groups: seq<Group>): nat {
    if groups == [] then 0 else GroupSizes(Init(groups)) + |Last(groups).members|
  }

  lemma {:induction false} GroupSizesUpdate(groups: seq<Group>, p: nat, g: Group)
    requires p < |groups|
    ensures GroupSizes(groups[p := g]) == GroupSizes(groups) - |groups[p].members| + |g.members|
  {
    var h := groups[p := g];
    if p < |groups| - 1 {
      GroupSizesUpdate(Init(groups), p, g);
      assert Init(h) == Init(groups)[p := g];
    } else {
      assert Init(h) == Init(groups);
    }
  }

  // No row is lost and none is counted twice.
  lemma {:induction false} GroupSizesAddUp(rows: seq<Record>, tuples: seq<Tuple>)
    requires |rows| == |tuples|
    ensures GroupSizes(GroupsOf(rows, tuples)) == |rows|
    decreases |rows|
  {
    hide GroupsOf, IsFirst, SameKeys, FirstIndices, ClassOf;
    if rows == [] {
      NoGroups();
    } else {
      var before := GroupsOf(Init(rows), Init(tuples));
      GroupSizesAddUp(Init(rows), Init(tuples));
      if IsFirst(tuples, |tuples| - 1) {
        NewGroup(rows, tuples);
        assert Init(before + [Group(Last(tuples), [Last(rows)])]) == before;
      } else {
        KnownKeyHasGroup(rows, tuples);
        var p :| 0 <= p < |before| && SameKeys(Last(tuples), before[p].key);
        GrownGroup(rows, tuples, p);
        GroupSizesUpdate(before, p, Group(before[p].key, before[p].members + [Last(rows)]));
        assert |before[p].members + [Last(rows)]| == |before[p].members| + 1;
      }
    }
  }

  // --- Evaluating keys and arguments; None is an error ---

  function KeyTuple(keys: seq<Expr>, rec: Record, ctx: Context): (r: Option<Tuple>)
    ensures r.Some? ==> |r.value| == |keys|
  {
    if keys == [] then Some([])
    else
      var before, v := KeyTuple(Init(keys), rec, ctx), Eval(Last(keys), rec, ctx);
      if before.None? || v.None? then None else Some(before.value + [v.value])
  }

  function KeyTuples(keys: seq<Expr>, rows: seq<Record>, ctx: Context): (r: Option<seq<Tuple>>)
    ensures r.Some? ==> |r.value| == |rows| && forall k :: 0 <= k < |r.value| ==> |r.value[k]| == |keys|
  {
    if rows == [] then Some([])
    else
      var before, t := KeyTuples(keys, Init(rows), ctx), KeyTuple(keys, Last(rows), ctx);
      if before.None? || t.None? then None else Some(before.value + [t.value])
  }

  lemma {:induction false} KeyTupleFails(keys: seq<Expr>, rec: Record, ctx: Context, i: nat)
    requires i <= |keys| && KeyTuple(keys[..i], rec, ctx).None?
    ensures KeyTuple(keys, rec, ctx).None?
    decreases |keys| - i
  {
    if i == |keys| {
      assert keys[..i] == keys;
    } else {
      assert Init(keys[..i + 1]) == keys[..i];
      KeyTupleFails(keys, rec, ctx, i + 1);
    }
  }

  lemma {:induction false} KeyTuplesFail(keys: seq<Expr>, rows: seq<Record>, ctx: Context, i: nat)
    requires i <= |rows| && KeyTuples(keys, rows[..i], ctx).None?
    ensures KeyTuples(keys, rows, ctx).None?
    decreases |rows| - i
  {
    hide KeyTuple;
    if i == |rows| {
      assert rows[..i] == rows;
    } else {
      assert Init(rows[..i + 1]) == rows[..i];
      KeyTuplesFail(keys, rows, ctx, i + 1);
    }
  }

  method EvaluateKeys(keys: seq<Expr>, rec: Record, ctx: Context) returns (r: Option<Tuple>)
    ensures r == KeyTuple(keys, rec, ctx)
  {
    var values: Tuple := [];
    for i := 0 to |keys|
      invariant KeyTuple(keys[..i], rec, ctx) == Some(values)
    {
      assert Init(keys[..i + 1]) == keys[..i] && Last(keys[..i + 1]) == keys[i];
      var v := Eval(keys[i], rec, ctx);
      if v.None? {
        KeyTupleFails(keys, rec, ctx, i + 1);
        return None;
      }
      values := values + [v.value];
    }
    assert keys[..|keys|] == keys;
    r := Some(values);
  }

  // The map from key text to position points at the group with that key.
  ghost predicate Filed(positions: map<string, nat>, groups: seq<Group>) {
    && (forall k :: k in positions ==> positions[k] < |groups| && CompositeKey(groups[positions[k]].key) == k)
    && (forall p :: 0 <= p < |groups| ==> CompositeKey(groups[p].key) in positions && positions[CompositeKey(groups[p].key)] == p)
  }

  lemma NothingFiled()
    ensures Filed(map[], [])
  {
  }

  lemma FiledAppend(positions: map<string, nat>, groups: seq<Group>, g: Group)
    requires Filed(positions, groups) && CompositeKey(g.key) !in positions
    ensures Filed(positions[CompositeKey(g.key) := |groups|], groups + [g])
  {
    hide CompositeKey;
  }

  // One row joins the groups.
  method FileRow(groups0: seq<Group>, positions0: map<string, nat>, rec: Record, t: Tuple,
                 ghost rows: seq<Record>, ghost tuples: seq<Tuple>)
    returns (groups: seq<Group>, positions: map<string, nat>)
    requires |rows| == |tuples| && rows != [] && Last(rows) == rec && Last(tuples) == t
    requires groups0 == GroupsOf(Init(rows), Init(tuples)) && Filed(positions0, groups0)
    ensures groups == GroupsOf(rows, tuples) && Filed(positions, groups)
  {
    hide GroupsOf, CompositeKey, SameKeys, IsFirst, FirstIndices;
    groups, positions := groups0, positions0;
    var key := BuildDistinctKey(t);
    forall p | 0 <= p < |groups| ensures CompositeKey(groups[p].key) == key <==> SameKeys(t, groups[p].key)
    {
      EqualKeysShared(t, groups[p].key);
    }
    if key in positions {
      var idx := positions[key];
      GrownGroup(rows, tuples, idx);
      groups := groups[idx := Group(groups[idx].key, groups[idx].members + [rec])];
    } else {
      if !IsFirst(tuples, |tuples| - 1) {
        KnownKeyHasGroup(rows, tuples);
        assert false;
      }
      NewGroup(rows, tuples);
      FiledAppend(positions, groups, Group(t, [rec]));
      positions := positions[key := |groups|];
      groups := groups + [Group(t, [rec])];
    }
  }

  method GroupRows(keys: seq<Expr>, rows: seq<Record>, ctx: Context) returns (r: Option<seq<Group>>)
    ensures var ts := KeyTuples(keys, rows, ctx);
            r == if ts.None? then None else Some(GroupsOf(rows, ts.value))
  {
    hide GroupsOf, Filed, KeyTuple;
    var groups: seq<Group> := [];
    var positions: map<string, nat> := map[];
    ghost var tuples: seq<Tuple> := [];
    NoGroups();
    NothingFiled();
    assert rows[..0] == [];
    for i := 0 to |rows|
      invariant KeyTuples(keys, rows[..i], ctx) == Some(tuples)
      invariant |tuples| == i && groups == GroupsOf(rows[..i], tuples) && Filed(positions, groups)
    {
      ghost var upTo := rows[..i + 1];
      assert Init(upTo) == rows[..i] && Last(upTo) == rows[i];
      var t := EvaluateKeys(keys, rows[i], ctx);
      if t.None? {
        KeyTuplesFail(keys, rows, ctx, i + 1);
        return None;
      }
      assert Init(tuples + [t.value]) == tuples;
      tuples := tuples + [t.value];
      groups, positions := FileRow(groups, positions, rows[i], t.value, upTo, tuples);
    }
    assert rows[..|rows|] == rows;
    r := Some(groups);
  }

  // --- Values under an aggregate ---

  function NonNullValues(arg: Expr, rows: seq<Record>, ctx: Context): Option<seq<Value>> {
    if rows == [] then Some([])
    else
      var before, v := NonNullValues(arg, Init(rows), ctx), Eval(arg, Last(rows), ctx);
      if before.None? || v.None? then None
      else Some(before.value + if v.value.Null? then [] else [v.value])
  }

  lemma {:induction false} NonNullFails(arg: Expr, rows: seq<Record>, ctx: Context, i: nat)
    requires i <= |rows| && NonNullValues(arg, rows[..i], ctx).None?
    ensures NonNullValues(arg, rows, ctx).None?
    decreases |rows| - i
  {
    if i == |rows| {
      assert rows[..i] == rows;
    } else {
      assert Init(rows[..i + 1]) == rows[..i];
      NonNullFails(arg, rows, ctx, i + 1);
    }
  }

  function Singles(values: seq<Value>): (r: seq<Tuple>)
    ensures |r| == |values|
  {
    seq(|values|, i requires 0 <= i < |values| => [values[i]])
  }

  function CollectedValues(arg: Expr, rows: seq<Record>, distinct: bool, ctx: Context): Option<seq<Value>> {
    var vals := NonNullValues(arg, rows, ctx);
    if vals.None? then None
    else Some(if distinct then FirstRows(vals.value, Singles(vals.value)) else vals.value)
  }

  lemma SingleKey(v: Value)
    ensures CompositeKey([v]) == StableKey(v)
  {
    assert StableKeysOf([v]) == [StableKey(v)];
  }

  // `vals.retain(|v| seen.insert(key))`
  method DistinctValues(vals: seq<Value>) returns (kept: seq<Value>)
    ensures kept == FirstRows(vals, Singles(vals))
  {
    hide CompositeKey, StableKey, IsFirst, FirstRows, KeysSeen;
    var seen: set<string> := {};
    kept := [];
    NothingSeen<Value>();
    assert vals[..0] == [] && Singles([]) == [];
    for i := 0 to |vals|
      invariant kept == FirstRows(vals[..i], Singles(vals[..i]))
      invariant seen == KeysSeen(Singles(vals[..i]))
    {
      ghost var upTo := vals[..i + 1];
      assert Init(upTo) == vals[..i] && Last(upTo) == vals[i];
      assert Init(Singles(upTo)) == Singles(vals[..i]) && Last(Singles(upTo)) == [vals[i]];
      SeenMeansNotFirst(Singles(upTo));
      FirstRowsSnoc(upTo, Singles(upTo));
      KeysSeenSnoc(Singles(upTo));
      SingleKey(vals[i]);
      var key := StableKey(vals[i]);
      if key !in seen {
        kept := kept + [vals[i]];
      }
      seen := seen + {key};
    }
    assert vals[..|vals|] == vals;
  }

  method CollectNonNullValues(arg: Expr, rows: seq<Record>, distinct: bool, ctx: Context) returns (r: Option<seq<Value>>)
    ensures r == CollectedValues(arg, rows, distinct, ctx)
  {
    hide FirstRows;
    var vals: seq<Value> := [];
    for i := 0 to |rows|
      invariant NonNullValues(arg, rows[..i], ctx) == Some(vals)
    {
      assert Init(rows[..i + 1]) == rows[..i] && Last(rows[..i + 1]) == rows[i];
      var v := Eval(arg, rows[i], ctx);
      if v.None? {
        NonNullFails(arg, rows, ctx, i + 1);
        return None;
      }
      vals := vals + if v.value.Null? then [] else [v.value];
    }
    assert rows[..|rows|] == rows;
    if distinct {
      vals := DistinctValues(vals);
    }
    r := Some(vals);
  }

  // --- SUM ---

  predicate AllIntegers(vals: seq<Value>) {
    forall v :: v in vals ==> v.Integer?
  }

  // The mathematical sum.
  function Total(vals: seq<Value>): int {
    if vals == [] then 0 else Total(Init(vals)) + if Last(vals).Integer? then Last(vals).i else 0
  }

  predicate FitsI64(n: int) {
    -0x8000_0000_0000_0000 <= n < 0x8000_0000_0000_0000
  }

  // An integer column sums to its mathematical sum, and fails exactly when
  // some prefix of it sums to something out of range.
  method SumValues(vals: seq<Value>, floatSum: seq<Value> -> F64) returns (r: Option<Value>)
    ensures AllIntegers(vals) && (forall n :: 0 <= n <= |vals| ==> FitsI64(Total(vals[..n]))) ==>
              r.Some? && r.value.Integer? && r.value.i == Total(vals)
    ensures r.None? <==> AllIntegers(vals) && exists n :: 0 <= n <= |vals| && !FitsI64(Total(vals[..n]))
    ensures !AllIntegers(vals) ==> r == Some(FloatVal(floatSum(vals)))
  {
    if vals == [] {
      return Some(Integer(0));
    }
    if !AllIntegers(vals) {
      return Some(FloatVal(floatSum(vals)));
    }
    var acc: I64 := 0;
    for i := 0 to |vals|
      invariant acc == Total(vals[..i])
      invariant forall n :: 0 <= n <= i ==> FitsI64(Total(vals[..n]))
    {
      assert Init(vals[..i + 1]) == vals[..i] && Last(vals[..i + 1]) == vals[i];
      assert vals[i] in vals;
      var next: int := acc + vals[i].i;
      if !FitsI64(next) {
        return None;
      }
      acc := next;
    }
    assert vals[..|vals|] == vals;
    r := Some(Integer(acc));
  }

  // A sum that fits can still fail, depending on the order of the rows.
  lemma SumDependsOnOrder()
    ensures var (a, b, c) := (Integer(0x7FFF_FFFF_FFFF_FFFF), Integer(1), Integer(-1));
            && Total([a, b, c]) == Total([a, c, b]) == 0x7FFF_FFFF_FFFF_FFFF
            && !(forall n :: 0 <= n <= 3 ==> FitsI64(Total([a, b, c][..n])))
            && (forall n :: 0 <= n <= 3 ==> FitsI64(Total([a, c, b][..n])))
  {
    var (a, b, c) := (Integer(0x7FFF_FFFF_FFFF_FFFF), Integer(1), Integer(-1));
    ThreeTotals(a, b, c);
    ThreeTotals(a, c, b);
  }

  lemma ThreeTotals(x: Value, y: Value, z: Value)
    requires x.Integer? && y.Integer? && z.Integer?
    ensures Total([x, y, z][..0]) == 0 && Total([x, y, z][..1]) == x.i
    ensures Total([x, y, z][..2]) == x.i + y.i && Total([x, y, z][..3]) == Total([x, y, z]) == x.i + y.i + z.i
  {
    var s := [x, y, z];
    assert s[..1] == [x] && s[..2] == [x, y] && s[..3] == s;
    assert Init([x]) == [] && Init([x, y]) == [x] && Init(s) == [x, y];
  }

  // --- Output rows ---

  // `usize as i64`
  function AsI64(n: nat): I64 {
    var m := n % 0x1_0000_0000_0000_0000;
    if m < 0x8000_0000_0000_0000 then m else m - 0x1_0000_0000_0000_0000
  }

  function SumResult(vals: seq<Value>, floatSum: seq<Value> -> F64): Option<Value> {
    if !AllIntegers(vals) then Some(FloatVal(floatSum(vals)))
    else if forall n :: 0 <= n <= |vals| ==> FitsI64(Total(vals[..n])) then
      (assert vals[..|vals|] == vals; Some(Integer(Total(vals))))
    else None
  }

  function AggregateValue(agg: Aggregate, members: seq<Record>, env: Env): Option<Value> {
    if agg.CountRows? then Some(Integer(AsI64(|members|)))
    else
      var vals := CollectedValues(agg.arg, members, agg.distinct, env.ctx);
      if vals.None? then None
      else
        match agg
        case Count(_, _) => Some(Integer(AsI64(|vals.value|)))
        case Sum(_, _) => SumResult(vals.value, env.floatSum)
        case Collect(_, _) => Some(ListVal(vals.value))
  }

  method ComputeAggregate(agg: Aggregate, members: seq<Record>, env: Env) returns (r: Option<Value>)
    ensures r == AggregateValue(agg, members, env)
  {
    hide CollectedValues, AsI64, Total;
    if agg.CountRows? {
      return Some(Integer(AsI64(|members|)));
    }
    var vals := CollectNonNullValues(agg.arg, members, agg.distinct, env.ctx);
    if vals.None? {
      return None;
    }
    match agg
    case Count(_, _) => r := Some(Integer(AsI64(|vals.value|)));
    case Sum(_, _) =>
      assert vals.value[..|vals.value|] == vals.value;
      r := SumValues(vals.value, env.floatSum);
    case Collect(_, _) => r := Some(ListVal(vals.value));
  }

  // Positions of the grouping keys and of the aggregates among the items.
  function PositionsOf(items: seq<Item>, keys: bool): (r: seq<nat>)
    ensures StrictlySorted(r)
    ensures forall i :: i in r <==> 0 <= i < |items| && items[i].KeyItem? == keys
  {
    if items == [] then [] else
      var before := PositionsOf(Init(items), keys);
      assert forall k :: 0 <= k < |before| ==> before[k] in before;
      before + if Last(items).KeyItem? == keys then [|items| - 1] else []
  }

  function KeyExprs(items: seq<Item>): (r: seq<Expr>)
    ensures |r| == |PositionsOf(items, true)|
  {
    var at := PositionsOf(items, true);
    assert forall k :: 0 <= k < |at| ==> at[k] in at;
    seq(|at|, p requires 0 <= p < |at| => items[at[p]].e)
  }

  function KeyColumns(at: seq<nat>, columns: seq<string>, key: Tuple): Record
    requires |at| == |key| && forall k :: 0 <= k < |at| ==> at[k] < |columns|
  {
    if at == [] then map[]
    else
      KeyColumns(Init(at), columns, Init(key))[columns[Last(at)] := Last(key)]
  }

  // The aggregates of one group are added after its keys; the first error wins.
  function OutputRow(items: seq<Item>, at: seq<nat>, columns: seq<string>, keyRow: Record, g: Group, env: Env): Option<Record>
    requires |columns| == |items| && forall k :: 0 <= k < |at| ==> at[k] < |items| && items[at[k]].AggregateItem?
    decreases |at|
  {
    if at == [] then Some(keyRow)
    else
      var before := OutputRow(items, Init(at), columns, keyRow, g, env);
      var v := AggregateValue(items[Last(at)].agg, g.members, env);
      if before.None? || v.None? then None else Some(before.value[columns[Last(at)] := v.value])
  }

  lemma PositionsAt(items: seq<Item>, keys: bool)
    ensures forall k :: 0 <= k < |PositionsOf(items, keys)| ==>
              PositionsOf(items, keys)[k] < |items| && items[PositionsOf(items, keys)[k]].KeyItem? == keys
  {
    var at := PositionsOf(items, keys);
    assert forall k :: 0 <= k < |at| ==> at[k] in at;
  }

  function GroupRow(items: seq<Item>, columns: seq<string>, g: Group, env: Env): Option<Record>
    requires |columns| == |items| && |g.key| == |PositionsOf(items, true)|
  {
    PositionsAt(items, true);
    PositionsAt(items, false);
    OutputRow(items, PositionsOf(items, false), columns, KeyColumns(PositionsOf(items, true), columns, g.key), g, env)
  }

  function OutputRows(items: seq<Item>, columns: seq<string>, groups: seq<Group>, env: Env): (r: Option<seq<Record>>)
    requires |columns| == |items|
    requires forall k :: 0 <= k < |groups| ==> |groups[k].key| == |PositionsOf(items, true)|
    ensures r.Some? ==> |r.value| == |groups|
  {
    if groups == [] then Some([])
    else
      var before, row := OutputRows(items, columns, Init(groups), env), GroupRow(items, columns, Last(groups), env);
      if before.None? || row.None? then None else Some(before.value + [row.value])
  }

  // No rows and no keys make one empty group, so that `count(*)` is 0.
  function EffectiveGroups(items: seq<Item>, rows: seq<Record>, tuples: seq<Tuple>): (r: seq<Group>)
    requires |rows| == |tuples| && forall k :: 0 <= k < |tuples| ==> |tuples[k]| == |PositionsOf(items, true)|
    ensures forall k :: 0 <= k < |r| ==> |r[k].key| == |PositionsOf(items, true)| && |r[k].members| <= |rows|
  {
    GroupsOf(rows, tuples) + if rows == [] && PositionsOf(items, true) == [] then [Group([], [])] else []
  }

  function Aggregated(items: seq<Item>, columns: seq<string>, rows: seq<Record>, env: Env): Option<seq<Record>>
    requires |columns| == |items|
  {
    var ts := KeyTuples(KeyExprs(items), rows, env.ctx);
    if ts.None? then None else OutputRows(items, columns, EffectiveGroups(items, rows, ts.value), env)
  }

  lemma {:induction false} OutputRowFails(items: seq<Item>, at: seq<nat>, columns: seq<string>, keyRow: Record, g: Group,
                                          env: Env, n: nat)
    requires |columns| == |items| && n <= |at| && forall k :: 0 <= k < |at| ==> at[k] < |items| && items[at[k]].AggregateItem?
    requires OutputRow(items, at[..n], columns, keyRow, g, env).None?
    ensures OutputRow(items, at, columns, keyRow, g, env).None?
    decreases |at| - n
  {
    hide AggregateValue;
    if n == |at| {
      assert at[..n] == at;
    } else {
      assert Init(at[..n + 1]) == at[..n];
      OutputRowFails(items, at, columns, keyRow, g, env, n + 1);
    }
  }

  lemma {:induction false} OutputRowsFail(items: seq<Item>, columns: seq<string>, groups: seq<Group>, env: Env, n: nat)
    requires |columns| == |items| && n <= |groups|
    requires forall k :: 0 <= k < |groups| ==> |groups[k].key| == |PositionsOf(items, true)|
    requires OutputRows(items, columns, groups[..n], env).None?
    ensures OutputRows(items, columns, groups, env).None?
    decreases |groups| - n
  {
    hide GroupRow, PositionsOf;
    if n == |groups| {
      assert groups[..n] == groups;
    } else {
      assert Init(groups[..n + 1]) == groups[..n];
      OutputRowsFail(items, columns, groups, env, n + 1);
    }
  }

  method BuildGroupRow(items: seq<Item>, columns: seq<string>, g: Group, env: Env) returns (r: Option<Record>)
    requires |columns| == |items| && |g.key| == |PositionsOf(items, true)|
    ensures r == GroupRow(items, columns, g, env)
  {
    hide AggregateValue, PositionsOf;
    var keyAt, aggAt := PositionsOf(items, true), PositionsOf(items, false);
    PositionsAt(items, true);
    PositionsAt(items, false);
    var row: Record := map[];
    for p := 0 to |keyAt|
      invariant row == KeyColumns(keyAt[..p], columns, g.key[..p])
    {
      assert Init(keyAt[..p + 1]) == keyAt[..p] && Init(g.key[..p + 1]) == g.key[..p];
      row := row[columns[keyAt[p]] := g.key[p]];
    }
    assert keyAt[..|keyAt|] == keyAt && g.key[..|keyAt|] == g.key;
    ghost var keyRow := row;
    for p := 0 to |aggAt|
      invariant OutputRow(items, aggAt[..p], columns, keyRow, g, env) == Some(row)
    {
      assert Init(aggAt[..p + 1]) == aggAt[..p] && Last(aggAt[..p + 1]) == aggAt[p];
      var v := ComputeAggregate(items[aggAt[p]].agg, g.members, env);
      if v.None? {
        OutputRowFails(items, aggAt, columns, keyRow, g, env, p + 1);
        return None;
      }
      row := row[columns[aggAt[p]] := v.value];
    }
    assert aggAt[..|aggAt|] == aggAt;
    r := Some(row);
  }

  method ExecuteAggregation(items: seq<Item>, columns: seq<string>, rows: seq<Record>, env: Env)
    returns (r: Option<seq<Record>>)
    requires |columns| == |items|
    ensures r == Aggregated(items, columns, rows, env)
  {
    hide GroupRow, PositionsOf, GroupsOf, KeyTuples, KeyExprs;
    var found := GroupRows(KeyExprs(items), rows, env.ctx);
    if found.None? {
      return None;
    }
    ghost var tuples := KeyTuples(KeyExprs(items), rows, env.ctx).value;
    var groups := found.value;
    if rows == [] && PositionsOf(items, true) == [] {
      groups := groups + [Group([], [])];
    }
    assert groups == EffectiveGroups(items, rows, tuples);
    var result: seq<Record> := [];
    for k := 0 to |groups|
      invariant OutputRows(items, columns, groups[..k], env) == Some(result)
    {
      assert Init(groups[..k + 1]) == groups[..k] && Last(groups[..k + 1]) == groups[k];
      var row := BuildGroupRow(items, columns, groups[k], env);
      if row.None? {
        OutputRowsFail(items, columns, groups, env, k + 1);
        return None;
      }
      result := result + [row.value];
    }
    assert groups[..|groups|] == groups;
    r := Some(result);
  }

  // --- Counting loses and repeats nothing ---

  function CountColumn(rows: seq<Record>, column: string): int {
    if rows == [] then 0
    else CountColumn(Init(rows), column)
         + if column in Last(rows) && Last(rows)[column].Integer? then Last(rows)[column].i else 0
  }

  lemma {:induction false} AggregateInRow(items: seq<Item>, at: seq<nat>, columns: seq<string>, keyRow: Record, g: Group,
                                          env: Env, c: nat)
    requires |columns| == |items| && NoDup(columns) && StrictlySorted(at)
    requires c in at
    requires forall k :: 0 <= k < |at| ==> at[k] < |items| && items[at[k]].AggregateItem?
    ensures var row := OutputRow(items, at, columns, keyRow, g, env);
            row.Some? ==> columns[c] in row.value && Some(row.value[columns[c]]) == AggregateValue(items[c].agg, g.members, env)
    decreases |at|
  {
    hide AggregateValue;
    if c != Last(at) {
      assert c in Init(at);
      AggregateInRow(items, Init(at), columns, keyRow, g, env, c);
    }
  }

  lemma CountOfGroup(items: seq<Item>, columns: seq<string>, g: Group, env: Env, c: nat)
    requires |columns| == |items| && NoDup(columns)
    requires c < |items| && items[c] == AggregateItem(CountRows)
    requires |g.key| == |PositionsOf(items, true)| && |g.members| < 0x8000_0000_0000_0000
    ensures var row := GroupRow(items, columns, g, env);
            row.Some? ==> columns[c] in row.value && row.value[columns[c]] == Integer(|g.members|)
  {
    hide PositionsOf;
    PositionsAt(items, true);
    PositionsAt(items, false);
    var at := PositionsOf(items, false);
    AggregateInRow(items, at, columns, KeyColumns(PositionsOf(items, true), columns, g.key), g, env, c);
  }

  lemma OutputRowsSplit(items: seq<Item>, columns: seq<string>, groups: seq<Group>, env: Env)
    requires |columns| == |items| && groups != []
    requires forall k :: 0 <= k < |groups| ==> |groups[k].key| == |PositionsOf(items, true)|
    requires OutputRows(items, columns, groups, env).Some?
    ensures OutputRows(items, columns, Init(groups), env).Some?
    ensures Init(OutputRows(items, columns, groups, env).value) == OutputRows(items, columns, Init(groups), env).value
    ensures Some(Last(OutputRows(items, columns, groups, env).value)) == GroupRow(items, columns, Last(groups), env)
  {
    hide GroupRow, PositionsOf;
  }

  lemma NoOutputRows(items: seq<Item>, columns: seq<string>, env: Env)
    requires |columns| == |items|
    ensures OutputRows(items, columns, [], env) == Some([])
  {
  }

  lemma {:induction false} CountsOfGroups(items: seq<Item>, columns: seq<string>, groups: seq<Group>, env: Env, c: nat)
    requires |columns| == |items| && NoDup(columns)
    requires c < |items| && items[c] == AggregateItem(CountRows)
    requires forall k :: 0 <= k < |groups| ==> |groups[k].key| == |PositionsOf(items, true)| && |groups[k].members| < 0x8000_0000_0000_0000
    requires OutputRows(items, columns, groups, env).Some?
    ensures CountColumn(OutputRows(items, columns, groups, env).value, columns[c]) == GroupSizes(groups)
    decreases |groups|
  {
    if groups == [] {
      NoOutputRows(items, columns, env);
    } else {
      hide GroupRow, PositionsOf, OutputRows;
      var last, out := Last(groups), OutputRows(items, columns, groups, env).value;
      OutputRowsSplit(items, columns, groups, env);
      CountsOfGroups(items, columns, Init(groups), env, c);
      CountOfGroup(items, columns, last, env, c);
    }
  }

  // Summed over the output rows, `count(*)` is the number of input rows.
  lemma CountsAddUp(items: seq<Item>, columns: seq<string>, rows: seq<Record>, env: Env, c: nat)
    requires |columns| == |items| && NoDup(columns) && |rows| < 0x8000_0000_0000_0000
    requires c < |items| && items[c] == AggregateItem(CountRows)
    requires Aggregated(items, columns, rows, env).Some?
    ensures CountColumn(Aggregated(items, columns, rows, env).value, columns[c]) == |rows|
  {
    hide GroupsOf, PositionsOf, OutputRows, KeyTuples, KeyExprs;
    var tuples := KeyTuples(KeyExprs(items), rows, env.ctx).value;
    var groups := EffectiveGroups(items, rows, tuples);
    GroupSizesAddUp(rows, tuples);
    if groups != GroupsOf(rows, tuples) {
      assert Init(groups) == GroupsOf(rows, tuples);
    }
    CountsOfGroups(items, columns, groups, env, c);
  }
}
