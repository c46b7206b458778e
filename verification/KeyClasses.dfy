// Classes of value tuples that share their keys: the first tuple of each class
// is what deduplication keeps, the classes are what grouping collects.

module KeyClasses {
  import opened GraphTypes
  import opened Sequences
  import opened Text
  import opened StableKeys

  type Tuple = seq<Value>

  // Same key in every position.
  predicate SameKeys(x: Tuple, y: Tuple) {
    StableKeysOf(x) == StableKeysOf(y)
  }

  lemma EqualKeysShared(x: Tuple, y: Tuple)
    ensures CompositeKey(x) == CompositeKey(y) <==> SameKeys(x, y)
  {
    CompositeKeys(x, y);
  }

  // On keyable values that is holding the same value in every position.
  lemma SameKeysIsSameTuple(x: Tuple, y: Tuple)
    requires forall i :: 0 <= i < |x| ==> Keyable(x[i])
    requires forall i :: 0 <= i < |y| ==> Keyable(y[i])
    ensures SameKeys(x, y) <==> SameTuple(x, y)
  {
    CompositeKeys(x, y);
    CompositeKeysIdentify(x, y);
  }

  // --- The two ways a composite key is built ---

  lemma CompositeKeySnoc(values: Tuple, i: nat)
    requires i < |values|
    ensures CompositeKey(values[..i + 1]) ==
            if i == 0 then StableKey(values[0]) else CompositeKey(values[..i]) + ['\0'] + StableKey(values[i])
    ensures CompositeKey(values[..i + 1]) != []
  {
    var before := StableKeysOf(values[..i]);
    assert StableKeysOf(values[..i + 1]) == before + [StableKey(values[i])];
    JoinSnoc(before, '\0', StableKey(values[i]));
    KeyHead(values[i]);
  }

  lemma EmptyCompositeKey(values: Tuple)
    ensures CompositeKey(values[..0]) == []
  {
  }

  // The join writes a separator before every value but the first.
  method BuildJoinKey(values: Tuple) returns (key: string)
    ensures key == CompositeKey(values)
  {
    hide StableKey, CompositeKey;
    key := "";
    EmptyCompositeKey(values);
    for i := 0 to |values|
      invariant key == CompositeKey(values[..i])
    {
      CompositeKeySnoc(values, i);
      if i > 0 {
        key := key + ['\0'];
      }
      key := key + StableKey(values[i]);
    }
    assert values[..|values|] == values;
  }

  // DISTINCT and grouping write one whenever something precedes, which is the
  // same because no key is empty.
  method BuildDistinctKey(values: Tuple) returns (key: string)
    ensures key == CompositeKey(values)
  {
    hide StableKey, CompositeKey;
    key := "";
    EmptyCompositeKey(values);
    for i := 0 to |values|
      invariant key == CompositeKey(values[..i])
      invariant key == [] <==> i == 0
    {
      CompositeKeySnoc(values, i);
      if key != [] {
        key := key + ['\0'];
      }
      key := key + StableKey(values[i]);
    }
    assert values[..|values|] == values;
  }

  function Pick<T>(rows: seq<T>, indices: seq<nat>): (r: seq<T>)
    requires forall i :: i in indices ==> i < |rows|
    ensures |r| == |indices|
  {
    seq(|indices|, i requires 0 <= i < |indices| => assert indices[i] in indices; rows[indices[i]])
  }

  lemma PickFromLonger<T>(rows: seq<T>, indices: seq<nat>)
    requires rows != [] && forall i :: i in indices ==> i < |rows| - 1
    ensures Pick(rows, indices) == Pick(Init(rows), indices)
  {
    assert forall k :: 0 <= k < |indices| ==> indices[k] in indices;
  }

  lemma PickSnoc<T>(rows: seq<T>, indices: seq<nat>, i: nat)
    requires (forall j :: j in indices ==> j < |rows|) && i < |rows|
    ensures Pick(rows, indices + [i]) == Pick(rows, indices) + [rows[i]]
  {
    assert forall k :: 0 <= k < |indices| ==> indices[k] in indices;
  }

  // --- The first tuple of each class ---

  predicate IsFirst(tuples: seq<Tuple>, i: nat)
    requires i < |tuples|
  {
    forall j :: 0 <= j < i ==> !SameKeys(tuples[j], tuples[i])
  }

  function FirstIndices(tuples: seq<Tuple>): (r: seq<nat>)
    ensures StrictlySorted(r)
    ensures forall i :: i in r <==> 0 <= i < |tuples| && IsFirst(tuples, i)
    decreases |tuples|
  {
    if tuples == [] then [] else
      var before := FirstIndices(Init(tuples));
      assert forall i :: 0 <= i < |tuples| - 1 ==> (IsFirst(tuples, i) <==> IsFirst(Init(tuples), i));
      assert forall i :: 0 <= i < |before| ==> before[i] in before;
      before + if IsFirst(tuples, |tuples| - 1) then [|tuples| - 1] else []
  }

  // Every tuple shares its keys with exactly one first tuple, the earliest such.
  lemma {:induction false} OneFirstPerClass(tuples: seq<Tuple>, k: nat)
    requires k < |tuples|
    ensures exists i :: i in FirstIndices(tuples) && i <= k && SameKeys(tuples[i], tuples[k])
    ensures forall i, j | i in FirstIndices(tuples) && j in FirstIndices(tuples) ::
              SameKeys(tuples[i], tuples[k]) && SameKeys(tuples[j], tuples[k]) ==> i == j
    decreases k
  {
    if IsFirst(tuples, k) {
      assert k in FirstIndices(tuples);
    } else {
      var j :| 0 <= j < k && SameKeys(tuples[j], tuples[k]);
      OneFirstPerClass(tuples, j);
    }
  }

  // --- The set of keys a loop has seen ---

  ghost function KeysSeen(tuples: seq<Tuple>): set<string> {
    set i | 0 <= i < |tuples| :: CompositeKey(tuples[i])
  }

  lemma SeenMeansNotFirst(tuples: seq<Tuple>)
    requires tuples != []
    ensures CompositeKey(Last(tuples)) in KeysSeen(Init(tuples)) <==> !IsFirst(tuples, |tuples| - 1)
  {
    hide CompositeKey, SameKeys;
    forall j | 0 <= j < |tuples|
      ensures CompositeKey(tuples[j]) == CompositeKey(Last(tuples)) <==> SameKeys(tuples[j], Last(tuples))
    {
      EqualKeysShared(tuples[j], Last(tuples));
    }
  }

  lemma KeysSeenSnoc(tuples: seq<Tuple>)
    requires tuples != []
    ensures KeysSeen(tuples) == KeysSeen(Init(tuples)) + {CompositeKey(Last(tuples))}
  {
    hide CompositeKey;
    forall k | k in KeysSeen(Init(tuples)) ensures k in KeysSeen(tuples) {
      var i :| 0 <= i < |Init(tuples)| && k == CompositeKey(Init(tuples)[i]);
      assert tuples[i] == Init(tuples)[i];
    }
    forall k | k in KeysSeen(tuples) ensures k in KeysSeen(Init(tuples)) + {CompositeKey(Last(tuples))} {
      var i :| 0 <= i < |tuples| && k == CompositeKey(tuples[i]);
      assert i < |tuples| - 1 ==> tuples[i] == Init(tuples)[i];
    }
  }

  // The rows whose tuple is the first of its class.
  function FirstRows<T>(rows: seq<T>, tuples: seq<Tuple>): (r: seq<T>)
    requires |rows| == |tuples|
  {
    Pick(rows, FirstIndices(tuples))
  }

  lemma NothingSeen<T>()
    ensures FirstRows<T>([], []) == [] && KeysSeen([]) == {}
  {
  }

  lemma FirstRowsSnoc<T>(rows: seq<T>, tuples: seq<Tuple>)
    requires |rows| == |tuples| && rows != []
    ensures FirstRows(rows, tuples) ==
            FirstRows(Init(rows), Init(tuples)) + if IsFirst(tuples, |tuples| - 1) then [Last(rows)] else []
  {
    var before, all := FirstIndices(Init(tuples)), FirstIndices(tuples);
    var last := IsFirst(tuples, |tuples| - 1);
    assert all == before + if last then [|tuples| - 1] else [];
    hide IsFirst, FirstIndices;
    PickFromLonger(rows, before);
    if last {
      PickSnoc(rows, before, |rows| - 1);
    } else {
      assert all == before;
    }
  }

  // --- Classes ---

  // The positions whose tuple has the keys of `key`, in order.
  function ClassOf(tuples: seq<Tuple>, key: Tuple): (r: seq<nat>)
    ensures StrictlySorted(r)
    ensures forall i :: i in r <==> 0 <= i < |tuples| && SameKeys(tuples[i], key)
    ensures |r| <= |tuples|
    decreases |tuples|
  {
    if tuples == [] then [] else
      var before := ClassOf(Init(tuples), key);
      assert forall i :: 0 <= i < |before| ==> before[i] in before;
      before + if SameKeys(Last(tuples), key) then [|tuples| - 1] else []
  }

  lemma ClassSnoc<T>(rows: seq<T>, tuples: seq<Tuple>, key: Tuple)
    requires |rows| == |tuples| && rows != []
    ensures Pick(rows, ClassOf(tuples, key)) ==
            Pick(Init(rows), ClassOf(Init(tuples), key)) + if SameKeys(Last(tuples), key) then [Last(rows)] else []
  {
    var before, all := ClassOf(Init(tuples), key), ClassOf(tuples, key);
    var last := SameKeys(Last(tuples), key);
    assert all == before + if last then [|tuples| - 1] else [];
    hide SameKeys, ClassOf;
    PickFromLonger(rows, before);
    if last {
      PickSnoc(rows, before, |rows| - 1);
    } else {
      assert all == before;
    }
  }
}
