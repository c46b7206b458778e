// Row operations of `execute_to_records` that compare rows through their
// composite keys: the hash join behind OPTIONAL MATCH, DISTINCT and UNION.

module RowOperations {
  import opened GraphTypes
  import opened Sequences
  import opened StableKeys
  import opened KeyClasses

  function Get(rec: Record, col: string): Value {
    if col in rec then rec[col] else Null
  }

  function Values(rec: Record, cols: seq<string>): (r: seq<Value>)
    ensures |r| == |cols|
  {
    seq(|cols|, i requires 0 <= i < |cols| => Get(rec, cols[i]))
  }

  // Same key in every column.
  predicate Alike(a: Record, b: Record, cols: seq<string>) {
    SameKeys(Values(a, cols), Values(b, cols))
  }

  predicate KeyableIn(rec: Record, cols: seq<string>) {
    forall c :: c in cols ==> Keyable(Get(rec, c))
  }

  // On keyable values being alike is holding the same value in every column.
  lemma AlikeIsSameValues(a: Record, b: Record, cols: seq<string>)
    requires KeyableIn(a, cols) && KeyableIn(b, cols)
    ensures Alike(a, b, cols) <==> forall c :: c in cols ==> SameValue(Get(a, c), Get(b, c))
  {
    hide SameValue, Keyable, SameKeys;
    var x, y := Values(a, cols), Values(b, cols);
    SameKeysIsSameTuple(x, y);
    if SameTuple(x, y) {
      forall c | c in cols ensures SameValue(Get(a, c), Get(b, c)) {
        var i :| 0 <= i < |cols| && cols[i] == c;
        assert SameValue(x[i], y[i]);
      }
    }
  }

  function RowKey(rec: Record, cols: seq<string>): string {
    CompositeKey(Values(rec, cols))
  }

  lemma RowKeysIdentify(a: Record, b: Record, cols: seq<string>)
    ensures RowKey(a, cols) == RowKey(b, cols) <==> Alike(a, b, cols)
  {
    CompositeKeys(Values(a, cols), Values(b, cols));
  }

  // --- LeftOuterJoin ---

  // The columns of `cols` that are, or are not, among `others`.
  function ColumnsIn(cols: seq<string>, others: seq<string>, present: bool): (r: seq<string>)
    ensures forall c :: c in r <==> c in cols && (c in others <==> present)
  {
    if cols == [] then []
    else (if (cols[0] in others) == present then [cols[0]] else []) + ColumnsIn(cols[1..], others, present)
  }

  // `l` with each of `vars` taken from `r`; the empty record stands for all nulls.
  function Extended(l: Record, r: Record, vars: seq<string>): (m: Record)
    ensures m.Keys == l.Keys + Elements(vars)
    ensures forall v :: v in m ==> m[v] == if v in vars then Get(r, v) else l[v]
  {
    if vars == [] then l else Extended(l, r, Init(vars))[Last(vars) := Get(r, Last(vars))]
  }

  function Elements(vars: seq<string>): set<string> {
    set v | v in vars
  }

  // The nested loop: for each left row every right row alike on the shared
  // variables, or one row of nulls when there is none.
  function Partners(l: Record, rights: seq<Record>, shared: seq<string>): (r: seq<Record>)
    ensures forall x :: x in r <==> x in rights && Alike(l, x, shared)
    decreases |rights|
  {
    if rights == [] then []
    else Partners(l, Init(rights), shared) + if Alike(l, Last(rights), shared) then [Last(rights)] else []
  }

  function JoinRow(l: Record, partners: seq<Record>, vars: seq<string>): (r: seq<Record>)
    ensures |r| == if partners == [] then 1 else |partners|
  {
    if partners == [] then [Extended(l, map[], vars)]
    else seq(|partners|, i requires 0 <= i < |partners| => Extended(l, partners[i], vars))
  }

  function NestedLoopJoin(lefts: seq<Record>, rights: seq<Record>, shared: seq<string>, vars: seq<string>): seq<Record>
    decreases |lefts|
  {
    if lefts == [] then []
    else NestedLoopJoin(Init(lefts), rights, shared, vars) + JoinRow(Last(lefts), Partners(Last(lefts), rights, shared), vars)
  }

  // Indices of the right rows filed under a key, in order.
  function Bucket(rights: seq<Record>, shared: seq<string>, key: string): (r: seq<nat>)
    ensures forall i :: i in r ==> i < |rights|
    decreases |rights|
  {
    if rights == [] then []
    else Bucket(Init(rights), shared, key) + if RowKey(Last(rights), shared) == key then [|rights| - 1] else []
  }

  lemma {:induction false} BucketHoldsPartners(l: Record, rights: seq<Record>, shared: seq<string>)
    ensures Pick(rights, Bucket(rights, shared, RowKey(l, shared))) == Partners(l, rights, shared)
    decreases |rights|
  {
    if rights != [] {
      var before := Bucket(Init(rights), shared, RowKey(l, shared));
      BucketHoldsPartners(l, Init(rights), shared);
      RowKeysIdentify(l, Last(rights), shared);
      hide RowKey, Alike;
      PickFromLonger(rights, before);
      PickSnoc(rights, before, |rights| - 1);
    }
  }

  ghost predicate Indexed(index: map<string, seq<nat>>, rights: seq<Record>, shared: seq<string>) {
    forall key: string :: Bucket(rights, shared, key) == if key in index then index[key] else []
  }

  method IndexByKey(rights: seq<Record>, shared: seq<string>) returns (index: map<string, seq<nat>>)
    ensures Indexed(index, rights, shared)
    ensures forall key :: key in index ==> index[key] != []
  {
    hide CompositeKey;
    index := map[];
    for idx := 0 to |rights|
      invariant Indexed(index, rights[..idx], shared)
      invariant forall key :: key in index ==> index[key] != []
    {
      assert Init(rights[..idx + 1]) == rights[..idx] && Last(rights[..idx + 1]) == rights[idx];
      var key := BuildJoinKey(Values(rights[idx], shared));
      index := index[key := (if key in index then index[key] else []) + [idx]];
    }
    assert rights[..|rights|] == rights;
  }

  method ExtendRow(l: Record, r: Record, vars: seq<string>) returns (merged: Record)
    ensures merged == Extended(l, r, vars)
  {
    merged := l;
    for k := 0 to |vars|
      invariant merged == Extended(l, r, vars[..k])
    {
      assert Init(vars[..k + 1]) == vars[..k] && Last(vars[..k + 1]) == vars[k];
      merged := merged[vars[k] := Get(r, vars[k])];
    }
    assert vars[..|vars|] == vars;
  }

  // One row per right index filed under the key.
  method JoinMatched(l: Record, rights: seq<Record>, indices: seq<nat>, vars: seq<string>) returns (rows: seq<Record>)
    requires indices != [] && forall i :: i in indices ==> i < |rights|
    ensures rows == JoinRow(l, Pick(rights, indices), vars)
  {
    hide Extended;
    ghost var partners := Pick(rights, indices);
    rows := [];
    for j := 0 to |indices|
      invariant rows == JoinRow(l, partners, vars)[..j]
    {
      assert indices[j] in indices && partners[j] == rights[indices[j]];
      var merged := ExtendRow(l, rights[indices[j]], vars);
      rows := rows + [merged];
    }
  }

  // --- What the join returns, in terms of the rows ---

  // The rows have values of the same key in every column both sides have.
  ghost predicate SharesKeys(a: Record, b: Record, leftCols: seq<string>, rightCols: seq<string>) {
    forall c :: c in leftCols && c in rightCols ==> StableKey(Get(a, c)) == StableKey(Get(b, c))
  }

  // `l`, with `r` in the columns only the right side has; null where `r` has none.
  ghost predicate IsJoined(l: Record, r: Record, leftCols: seq<string>, rightCols: seq<string>, row: Record) {
    forall c ::
      if c in rightCols && c !in leftCols then c in row && row[c] == (if c in r then r[c] else Null)
      else (c in row <==> c in l) && (c in l ==> row[c] == l[c])
  }

  // One row for each right row that shares its keys, in their order, or one
  // with nulls when none does.
  ghost predicate IsBlock(l: Record, rights: seq<Record>, leftCols: seq<string>, rightCols: seq<string>, rows: seq<Record>) {
    exists at :: PartnersAt(l, rights, leftCols, rightCols, at) &&
      if at == [] then |rows| == 1 && IsJoined(l, map[], leftCols, rightCols, rows[0])
      else |rows| == |at| && forall j :: 0 <= j < |at| ==> at[j] < |rights| && IsJoined(l, rights[at[j]], leftCols, rightCols, rows[j])
  }

  ghost predicate PartnersAt(l: Record, rights: seq<Record>, leftCols: seq<string>, rightCols: seq<string>, at: seq<nat>) {
    StrictlySorted(at) && forall i :: i in at <==> 0 <= i < |rights| && SharesKeys(l, rights[i], leftCols, rightCols)
  }

  lemma AlikeMeans(a: Record, b: Record, leftCols: seq<string>, rightCols: seq<string>)
    ensures Alike(a, b, ColumnsIn(leftCols, rightCols, true)) <==> SharesKeys(a, b, leftCols, rightCols)
  {
    hide StableKey;
    var shared := ColumnsIn(leftCols, rightCols, true);
    var x, y := StableKeysOf(Values(a, shared)), StableKeysOf(Values(b, shared));
    if SharesKeys(a, b, leftCols, rightCols) {
      forall i | 0 <= i < |shared| ensures x[i] == y[i] {
        assert shared[i] in shared;
      }
    }
    if x == y {
      forall c | c in leftCols && c in rightCols ensures StableKey(Get(a, c)) == StableKey(Get(b, c)) {
        assert c in shared;
        var i :| 0 <= i < |shared| && shared[i] == c;
        assert x[i] == y[i];
      }
    }
  }

  lemma {:induction false} PartnersMean(l: Record, rights: seq<Record>, leftCols: seq<string>, rightCols: seq<string>)
    returns (at: seq<nat>)
    ensures PartnersAt(l, rights, leftCols, rightCols, at)
    ensures PickedAt(Partners(l, rights, ColumnsIn(leftCols, rightCols, true)), rights, at)
    decreases |rights|
  {
    hide Alike, ColumnsIn, Partners, PartnersAt, PickedAt, SharesKeys;
    if rights == [] {
      at := [];
      NoPartners(l, leftCols, rightCols);
    } else {
      var before := PartnersMean(l, Init(rights), leftCols, rightCols);
      AlikeMeans(l, Last(rights), leftCols, rightCols);
      PartnersStep(l, rights, ColumnsIn(leftCols, rightCols, true), before);
      if Alike(l, Last(rights), ColumnsIn(leftCols, rightCols, true)) {
        PartnersMore(l, rights, leftCols, rightCols, before);
        at := before + [|rights| - 1];
      } else {
        PartnersSame(l, rights, leftCols, rightCols, before);
        at := before + [];
      }
    }
  }

  lemma NoPartners(l: Record, leftCols: seq<string>, rightCols: seq<string>)
    ensures PartnersAt(l, [], leftCols, rightCols, [])
    ensures PickedAt(Partners(l, [], ColumnsIn(leftCols, rightCols, true)), [], [])
  {
  }

  lemma PartnersStep(l: Record, rights: seq<Record>, shared: seq<string>, at: seq<nat>)
    requires rights != [] && PickedAt(Partners(l, Init(rights), shared), Init(rights), at)
    ensures PickedAt(Partners(l, rights, shared), rights, at + if Alike(l, Last(rights), shared) then [|rights| - 1] else [])
  {
    hide Alike;
    assert rights == Init(rights) + [Last(rights)];
    PickOneMore(Partners(l, Init(rights), shared), Init(rights), at, Last(rights));
    assert Partners(l, Init(rights), shared) + [] == Partners(l, Init(rights), shared) && at + [] == at;
  }

  lemma PartnersMore(l: Record, rights: seq<Record>, leftCols: seq<string>, rightCols: seq<string>, at: seq<nat>)
    requires rights != [] && PartnersAt(l, Init(rights), leftCols, rightCols, at)
    requires SharesKeys(l, Last(rights), leftCols, rightCols)
    ensures PartnersAt(l, rights, leftCols, rightCols, at + [|rights| - 1])
  {
    hide SharesKeys;
    forall k | 0 <= k < |at| ensures at[k] < |rights| - 1 { assert at[k] in at; }
  }

  lemma PartnersSame(l: Record, rights: seq<Record>, leftCols: seq<string>, rightCols: seq<string>, at: seq<nat>)
    requires rights != [] && PartnersAt(l, Init(rights), leftCols, rightCols, at)
    requires !SharesKeys(l, Last(rights), leftCols, rightCols)
    ensures PartnersAt(l, rights, leftCols, rightCols, at) && at + [] == at
  {
    hide SharesKeys;
  }

  lemma BlockMeans(l: Record, rights: seq<Record>, leftCols: seq<string>, rightCols: seq<string>)
    ensures IsBlock(l, rights, leftCols, rightCols,
                    JoinRow(l, Partners(l, rights, ColumnsIn(leftCols, rightCols, true)), ColumnsIn(rightCols, leftCols, false)))
  {
    hide Partners, PartnersAt;
    var partners, vars := Partners(l, rights, ColumnsIn(leftCols, rightCols, true)), ColumnsIn(rightCols, leftCols, false);
    var rows := JoinRow(l, partners, vars);
    var at := PartnersMean(l, rights, leftCols, rightCols);
    forall r: Record ensures IsJoined(l, r, leftCols, rightCols, Extended(l, r, vars)) {
      var row := Extended(l, r, vars);
      forall c ensures c in row <==> c in l || c in vars { assert c in row.Keys <==> c in l.Keys + Elements(vars); }
    }
    assert |partners| == |at|;
  }

  lemma {:induction false} JoinMeans(lefts: seq<Record>, rights: seq<Record>, leftCols: seq<string>, rightCols: seq<string>)
    returns (blocks: seq<seq<Record>>)
    ensures |blocks| == |lefts|
    ensures NestedLoopJoin(lefts, rights, ColumnsIn(leftCols, rightCols, true), ColumnsIn(rightCols, leftCols, false)) == Flatten(blocks)
    ensures forall i :: 0 <= i < |lefts| ==> IsBlock(lefts[i], rights, leftCols, rightCols, blocks[i])
    decreases |lefts|
  {
    blocks := [];
    if lefts != [] {
      hide IsBlock, JoinRow, Partners, ColumnsIn;
      var before := JoinMeans(Init(lefts), rights, leftCols, rightCols);
      BlockMeans(Last(lefts), rights, leftCols, rightCols);
      blocks := before + [JoinRow(Last(lefts), Partners(Last(lefts), rights, ColumnsIn(leftCols, rightCols, true)),
                                  ColumnsIn(rightCols, leftCols, false))];
      assert Init(blocks) == before;
      forall i | 0 <= i < |lefts| ensures IsBlock(lefts[i], rights, leftCols, rightCols, blocks[i]) {
        assert i < |lefts| - 1 ==> lefts[i] == Init(lefts)[i] && blocks[i] == before[i];
      }
    }
  }

  // The columns only the second list has, in its order.
  lemma {:induction false} NewColumns(cols: seq<string>, others: seq<string>) returns (at: seq<nat>)
    ensures PickedAt(ColumnsIn(cols, others, false), cols, at)
    ensures forall i :: i in at <==> 0 <= i < |cols| && cols[i] !in others
    decreases |cols|
  {
    at := [];
    if cols != [] {
      hide ColumnsIn;
      var init, c := Init(cols), Last(cols);
      assert cols == init + [c];
      at := NewColumns(init, others);
      ColumnsSnoc(init, c, others);
      PickOneMore(ColumnsIn(init, others, false), init, at, c);
      if c in others {
        assert ColumnsIn(init, others, false) + [] == ColumnsIn(init, others, false);
      } else {
        at := at + [|init|];
      }
    }
  }

  lemma {:induction false} ColumnsSnoc(cols: seq<string>, c: string, others: seq<string>)
    ensures ColumnsIn(cols + [c], others, false) == ColumnsIn(cols, others, false) + if c in others then [] else [c]
    decreases |cols|
  {
    if cols == [] {
      assert cols + [c] == [c];
    } else {
      assert (cols + [c])[1..] == cols[1..] + [c];
      ColumnsSnoc(cols[1..], c, others);
    }
  }

  method ExecuteLeftOuterJoin(leftCols: seq<string>, lefts: seq<Record>, rightCols: seq<string>, rights: seq<Record>)
    returns (cols: seq<string>, result: seq<Record>)
    ensures cols == leftCols + ColumnsIn(rightCols, leftCols, false)
    ensures result == NestedLoopJoin(lefts, rights, ColumnsIn(leftCols, rightCols, true), ColumnsIn(rightCols, leftCols, false))
    ensures exists at :: leftCols <= cols && PickedAt(cols[|leftCols|..], rightCols, at)
                      && forall i :: i in at <==> 0 <= i < |rightCols| && rightCols[i] !in leftCols
    ensures exists blocks: seq<seq<Record>> ::
              && |blocks| == |lefts| && result == Flatten(blocks)
              && forall i :: 0 <= i < |lefts| ==> IsBlock(lefts[i], rights, leftCols, rightCols, blocks[i])
  {
    hide CompositeKey, Alike, ColumnsIn, Extended, Bucket, Partners, IsBlock, PickedAt;
    ghost var at := NewColumns(rightCols, leftCols);
    ghost var blocks := JoinMeans(lefts, rights, leftCols, rightCols);
    var shared, rightOnly := ColumnsIn(leftCols, rightCols, true), ColumnsIn(rightCols, leftCols, false);
    cols := leftCols + rightOnly;
    var index := IndexByKey(rights, shared);
    result := [];
    for i := 0 to |lefts|
      invariant result == NestedLoopJoin(lefts[..i], rights, shared, rightOnly)
    {
      assert Init(lefts[..i + 1]) == lefts[..i] && Last(lefts[..i + 1]) == lefts[i];
      var key := BuildJoinKey(Values(lefts[i], shared));
      BucketHoldsPartners(lefts[i], rights, shared);
      assert Bucket(rights, shared, key) == if key in index then index[key] else [];
      var rows: seq<Record>;
      if key !in index {
        var merged := ExtendRow(lefts[i], map[], rightOnly);
        rows := [merged];
      } else {
        rows := JoinMatched(lefts[i], rights, index[key], rightOnly);
      }
      result := result + rows;
    }
    assert lefts[..|lefts|] == lefts;
    assert cols[|leftCols|..] == rightOnly && PickedAt(cols[|leftCols|..], rightCols, at);
  }

  function Max(a: int, b: int): int { if a < b then b else a }

  // Σ over the left rows of max(1, matching right rows).
  function JoinSize(lefts: seq<Record>, rights: seq<Record>, shared: seq<string>): nat
    decreases |lefts|
  {
    if lefts == [] then 0
    else JoinSize(Init(lefts), rights, shared) + Max(1, |Partners(Last(lefts), rights, shared)|)
  }

  lemma {:induction false} JoinHasSize(lefts: seq<Record>, rights: seq<Record>, shared: seq<string>, vars: seq<string>)
    ensures |NestedLoopJoin(lefts, rights, shared, vars)| == JoinSize(lefts, rights, shared)
    decreases |lefts|
  {
    hide Partners;
    if lefts != [] {
      JoinHasSize(Init(lefts), rights, shared, vars);
    }
  }

  lemma {:induction false} JoinExtends(lefts: seq<Record>, rights: seq<Record>, shared: seq<string>, vars: seq<string>, n: nat)
    requires n <= |lefts|
    ensures NestedLoopJoin(lefts[..n], rights, shared, vars) <= NestedLoopJoin(lefts, rights, shared, vars)
    decreases |lefts| - n
  {
    hide Partners, JoinRow;
    if n < |lefts| {
      assert Init(lefts[..n + 1]) == lefts[..n];
      JoinExtends(lefts, rights, shared, vars, n + 1);
    } else {
      assert lefts[..n] == lefts;
    }
  }

  lemma PrefixSlice<T>(full: seq<T>, a: seq<T>, b: seq<T>)
    requires a + b <= full
    ensures full[|a|..|a| + |b|] == b
  {
    assert (a + b)[|a|..] == b && full[..|a| + |b|] == a + b;
    assert full[|a|..|a| + |b|] == full[..|a| + |b|][|a|..];
  }

  lemma JoinAt(lefts: seq<Record>, rights: seq<Record>, shared: seq<string>, vars: seq<string>, i: nat)
    requires i < |lefts|
    ensures NestedLoopJoin(lefts[..i + 1], rights, shared, vars) ==
            NestedLoopJoin(lefts[..i], rights, shared, vars) + JoinRow(lefts[i], Partners(lefts[i], rights, shared), vars)
    ensures JoinSize(lefts[..i + 1], rights, shared) ==
            JoinSize(lefts[..i], rights, shared) + |JoinRow(lefts[i], Partners(lefts[i], rights, shared), vars)|
    ensures |JoinRow(lefts[i], Partners(lefts[i], rights, shared), vars)| == Max(1, |Partners(lefts[i], rights, shared)|)
  {
    hide Partners;
    assert Init(lefts[..i + 1]) == lefts[..i] && Last(lefts[..i + 1]) == lefts[i];
  }

  // Every left row has its own block of the result, in order; the block has one
  // row per partner, or one row when there is none.
  lemma EveryLeftRowSurvives(lefts: seq<Record>, rights: seq<Record>, shared: seq<string>, vars: seq<string>, i: nat)
    requires i < |lefts|
    ensures |NestedLoopJoin(lefts, rights, shared, vars)| == JoinSize(lefts, rights, shared)
    ensures JoinSize(lefts[..i + 1], rights, shared) <= JoinSize(lefts, rights, shared)
    ensures JoinSize(lefts[..i + 1], rights, shared) ==
            JoinSize(lefts[..i], rights, shared) + Max(1, |Partners(lefts[i], rights, shared)|)
    ensures NestedLoopJoin(lefts, rights, shared, vars)
              [JoinSize(lefts[..i], rights, shared)..JoinSize(lefts[..i + 1], rights, shared)] ==
            JoinRow(lefts[i], Partners(lefts[i], rights, shared), vars)
  {
    hide *;
    var all, before := NestedLoopJoin(lefts, rights, shared, vars), NestedLoopJoin(lefts[..i], rights, shared, vars);
    var block := JoinRow(lefts[i], Partners(lefts[i], rights, shared), vars);
    JoinAt(lefts, rights, shared, vars, i);
    JoinHasSize(lefts, rights, shared, vars);
    JoinHasSize(lefts[..i], rights, shared, vars);
    JoinExtends(lefts, rights, shared, vars, i + 1);
    assert before + block <= all;
    PrefixSlice(all, before, block);
  }

  // A left row without a partner: its own bindings, and null in every variable
  // that only the right side binds.
  lemma UnmatchedRowMeans(l: Record, rights: seq<Record>, leftCols: seq<string>, rightCols: seq<string>)
    requires forall c :: c in l ==> c in leftCols
    requires forall r :: r in rights ==> !Alike(l, r, ColumnsIn(leftCols, rightCols, true))
    ensures var rows := JoinRow(l, Partners(l, rights, ColumnsIn(leftCols, rightCols, true)), ColumnsIn(rightCols, leftCols, false));
            && |rows| == 1
            && (forall c :: c in leftCols ==> Get(rows[0], c) == Get(l, c))
            && (forall c :: c in rightCols && c !in leftCols ==> c in rows[0] && rows[0][c] == Null)
  {
    hide Alike;
    var partners := Partners(l, rights, ColumnsIn(leftCols, rightCols, true));
    assert forall i :: 0 <= i < |partners| ==> partners[i] in partners;
  }

  // A left row with partners: row `j` keeps its bindings and takes from its
  // `j`-th partner every variable that only the right side binds.
  lemma MatchedRowMeans(l: Record, rights: seq<Record>, leftCols: seq<string>, rightCols: seq<string>, j: nat)
    requires forall c :: c in l ==> c in leftCols
    requires j < |Partners(l, rights, ColumnsIn(leftCols, rightCols, true))|
    ensures var partners := Partners(l, rights, ColumnsIn(leftCols, rightCols, true));
            var rows := JoinRow(l, partners, ColumnsIn(rightCols, leftCols, false));
            && |rows| == |partners|
            && partners[j] in rights && Alike(l, partners[j], ColumnsIn(leftCols, rightCols, true))
            && (forall c :: c in leftCols ==> Get(rows[j], c) == Get(l, c))
            && (forall c :: c in rightCols && c !in leftCols ==> c in rows[j] && rows[j][c] == Get(partners[j], c))
  {
    hide Alike;
    var partners := Partners(l, rights, ColumnsIn(leftCols, rightCols, true));
    assert partners[j] in partners;
  }

  // --- DISTINCT and UNION ---

  function TuplesOf(rows: seq<Record>, cols: seq<string>): (r: seq<Tuple>)
    ensures |r| == |rows|
  {
    seq(|rows|, i requires 0 <= i < |rows| => Values(rows[i], cols))
  }

  // No row before it has values of the same keys in these columns.
  ghost predicate IsNewRow(rows: seq<Record>, cols: seq<string>, i: nat)
    requires i < |rows|
  {
    forall j :: 0 <= j < i ==> !SharesKeys(rows[j], rows[i], cols, cols)
  }

  lemma FirstRowsMean(rows: seq<Record>, cols: seq<string>) returns (at: seq<nat>)
    ensures PickedAt(FirstRows(rows, TuplesOf(rows, cols)), rows, at)
    ensures forall i :: i in at <==> 0 <= i < |rows| && IsNewRow(rows, cols, i)
  {
    hide SharesKeys, SameKeys;
    at := FirstIndices(TuplesOf(rows, cols));
    forall k | 0 <= k < |at| ensures at[k] < |rows| { assert at[k] in at; }
    forall i, j | 0 <= i < |rows| && 0 <= j < |rows|
      ensures SameKeys(TuplesOf(rows, cols)[j], TuplesOf(rows, cols)[i]) <==> SharesKeys(rows[j], rows[i], cols, cols)
    {
      AllColumns(cols, cols);
      AlikeMeans(rows[j], rows[i], cols, cols);
    }
  }

  lemma {:induction false} AllColumns(cols: seq<string>, others: seq<string>)
    requires forall c :: c in cols ==> c in others
    ensures ColumnsIn(cols, others, true) == cols
    decreases |cols|
  {
    if cols != [] {
      assert cols == [cols[0]] + cols[1..];
      AllColumns(cols[1..], others);
    }
  }

  // `rows.retain(|rec| seen.insert(key))`: the first row of each class stays.
  method Deduplicate(rows: seq<Record>, cols: seq<string>) returns (kept: seq<Record>)
    ensures kept == FirstRows(rows, TuplesOf(rows, cols))
    ensures exists at :: PickedAt(kept, rows, at) && forall i :: i in at <==> 0 <= i < |rows| && IsNewRow(rows, cols, i)
  {
    hide CompositeKey, IsFirst, FirstRows, KeysSeen, IsNewRow, PickedAt;
    ghost var at := FirstRowsMean(rows, cols);
    var seen: set<string> := {};
    kept := [];
    NothingSeen<Record>();
    assert rows[..0] == [] && TuplesOf([], cols) == [];
    for i := 0 to |rows|
      invariant kept == FirstRows(rows[..i], TuplesOf(rows[..i], cols))
      invariant seen == KeysSeen(TuplesOf(rows[..i], cols))
    {
      ghost var upTo := rows[..i + 1];
      ghost var tuples := TuplesOf(upTo, cols);
      assert Init(upTo) == rows[..i] && Last(upTo) == rows[i];
      assert Init(tuples) == TuplesOf(rows[..i], cols) && Last(tuples) == Values(rows[i], cols);
      SeenMeansNotFirst(tuples);
      FirstRowsSnoc(upTo, tuples);
      KeysSeenSnoc(tuples);
      var key := BuildDistinctKey(Values(rows[i], cols));
      if key !in seen {
        kept := kept + [rows[i]];
      }
      seen := seen + {key};
    }
    assert rows[..|rows|] == rows;
  }

  // A right-hand row under the left-hand column names, by position.
  function Remapped(rec: Record, from: seq<string>, to: seq<string>): Record
    requires |from| == |to|
  {
    if from == [] then map[]
    else Remapped(rec, Init(from), Init(to))[Last(to) := Get(rec, Last(from))]
  }

  lemma {:induction false} RemappedByPosition(rec: Record, from: seq<string>, to: seq<string>, i: nat)
    requires |from| == |to| && NoDup(to) && i < |to|
    ensures Get(Remapped(rec, from, to), to[i]) == Get(rec, from[i])
    decreases |from|
  {
    if i < |to| - 1 {
      RemappedByPosition(rec, Init(from), Init(to), i);
      assert Init(to)[i] == to[i] != Last(to);
    }
  }

  // The right row's values by position under the left names, and nothing else.
  ghost predicate IsRenamed(rec: Record, from: seq<string>, to: seq<string>, row: Record)
    requires |from| == |to|
  {
    && (forall c :: c in row <==> c in to)
    && (NoDup(to) ==> forall k :: 0 <= k < |to| ==> to[k] in row && row[to[k]] == if from[k] in rec then rec[from[k]] else Null)
  }

  lemma {:induction false} RemappedKeys(rec: Record, from: seq<string>, to: seq<string>)
    requires |from| == |to|
    ensures forall c :: c in Remapped(rec, from, to) <==> c in to
    decreases |to|
  {
    if to != [] {
      RemappedKeys(rec, Init(from), Init(to));
      assert to == Init(to) + [Last(to)];
    }
  }

  lemma RemappedMeans(rec: Record, from: seq<string>, to: seq<string>)
    requires |from| == |to|
    ensures IsRenamed(rec, from, to, Remapped(rec, from, to))
  {
    hide Remapped;
    RemappedKeys(rec, from, to);
    if NoDup(to) {
      forall k | 0 <= k < |to|
        ensures to[k] in Remapped(rec, from, to) && Remapped(rec, from, to)[to[k]] == if from[k] in rec then rec[from[k]] else Null
      {
        RemappedByPosition(rec, from, to, k);
        assert to[k] in to;
      }
    }
  }

  // Both sides' rows, the right ones renamed; without ALL only the first of
  // those with the same keys.
  ghost predicate IsUnion(leftCols: seq<string>, lefts: seq<Record>, rightCols: seq<string>, rights: seq<Record>, all: bool,
                          result: seq<Record>)
    requires |leftCols| == |rightCols|
  {
    exists renamed: seq<Record> ::
      && |renamed| == |rights| && (forall i :: 0 <= i < |rights| ==> IsRenamed(rights[i], rightCols, leftCols, renamed[i]))
      && if all then result == lefts + renamed
         else exists at :: PickedAt(result, lefts + renamed, at)
                        && forall i :: i in at <==> 0 <= i < |lefts + renamed| && IsNewRow(lefts + renamed, leftCols, i)
  }

  // None is the error of unequal column counts.
  method ExecuteUnion(leftCols: seq<string>, lefts: seq<Record>, rightCols: seq<string>, rights: seq<Record>, all: bool)
    returns (r: Option<seq<Record>>)
    ensures r.None? <==> |leftCols| != |rightCols|
    ensures r.Some? ==>
              var rows := lefts + seq(|rights|, i requires 0 <= i < |rights| => Remapped(rights[i], rightCols, leftCols));
              r.value == if all then rows else FirstRows(rows, TuplesOf(rows, leftCols))
    ensures r.Some? ==> IsUnion(leftCols, lefts, rightCols, rights, all, r.value)
  {
    hide Remapped, IsRenamed, PickedAt, IsNewRow, FirstRows;
    if |leftCols| != |rightCols| {
      return None;
    }
    var remapped := seq(|rights|, i requires 0 <= i < |rights| => Remapped(rights[i], rightCols, leftCols));
    forall i | 0 <= i < |rights| ensures IsRenamed(rights[i], rightCols, leftCols, remapped[i]) {
      RemappedMeans(rights[i], rightCols, leftCols);
    }
    var combined := lefts + remapped;
    if !all {
      combined := Deduplicate(combined, leftCols);
    }
    r := Some(combined);
  }
}
