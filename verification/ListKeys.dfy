// When the stable key of a list belongs to that list alone: items are joined by
// a bare comma, which a string may hold.

module ListKeys {
  import opened GraphTypes
  import opened Sequences
  import opened Text
  import opened StableKeys

  predicate Flat(x: seq<Value>) {
    forall i :: 0 <= i < |x| ==> Scalar(x[i])
  }

  // After one of its commas the string reads like the key of a scalar.
  ghost predicate EndsInKey(s: string) {
    exists i, v: Value :: 0 <= i < |s| && s[i] == ',' && Scalar(v) && StableKey(v) == EscapeForKey(s[i + 1..])
  }

  // Strings only in the last place, and there none that ends in a key.
  ghost predicate Unambiguous(x: seq<Value>) {
    && (forall i :: 0 <= i < |x| - 1 ==> !x[i].StringVal?)
    && (x != [] && Last(x).StringVal? ==> !EndsInKey(Last(x).s))
  }

  // --- Text ---

  lemma {:induction false} JoinCons(parts: seq<string>, sep: char)
    requires |parts| > 1
    ensures Join(parts, sep) == parts[0] + [sep] + Join(parts[1..], sep)
  {
    if |parts| > 2 {
      var init := parts[..|parts| - 1];
      JoinCons(init, sep);
      assert parts[1..] == init[1..] + [Last(parts)];
      JoinSnoc(init[1..], sep, Last(parts));
      assert parts[1..][..|parts| - 2] == init[1..];
    } else {
      assert parts == [parts[0]] + [parts[1]] && parts[1..] == [parts[1]];
      JoinSnoc([parts[0]], sep, parts[1]);
    }
  }

  lemma Regroup(j: string, a: string, b: string, sep: char)
    ensures j + [sep] + (a + [sep] + b) == j + [sep] + a + [sep] + b
  {
  }

  // A part that itself holds a separator joins like the two parts around it.
  lemma {:induction false} JoinMerged(before: seq<string>, a: string, b: string, after: seq<string>, sep: char)
    ensures Join(before + [a] + [b] + after, sep) == Join(before + [a + [sep] + b] + after, sep)
    decreases |after|
  {
    hide Join;
    if after == [] {
      JoinSnoc(before, sep, a);
      JoinSnoc(before + [a], sep, b);
      JoinSnoc(before, sep, a + [sep] + b);
      assert before + [a] + [b] + after == before + [a] + [b];
      assert before + [a + [sep] + b] + after == before + [a + [sep] + b];
      if before != [] {
        Regroup(Join(before, sep), a, b, sep);
      }
    } else {
      var init, l := Init(after), Last(after);
      JoinMerged(before, a, b, init, sep);
      assert before + [a] + [b] + after == (before + [a] + [b] + init) + [l];
      assert before + [a + [sep] + b] + after == (before + [a + [sep] + b] + init) + [l];
      JoinSnoc(before + [a] + [b] + init, sep, l);
      JoinSnoc(before + [a + [sep] + b] + init, sep, l);
    }
  }

  // What precedes the first separator can be read off in one way only.
  lemma FirstSplits(x: string, a: string, y: string, b: string, sep: char)
    requires sep !in x && sep !in y
    requires x + [sep] + a == y + [sep] + b
    ensures x == y && a == b
  {
    var s := x + [sep] + a;
    assert s[|x|] == sep && s[|y|] == sep;
    assert forall i :: 0 <= i < |x| ==> s[i] == x[i];
    assert forall i :: 0 <= i < |y| ==> s[i] == y[i];
    assert |x| == |y|;
    assert s[..|x|] == x && s[..|y|] == y && s[|x| + 1..] == a && s[|y| + 1..] == b;
  }

  // A comma in an escaped string is a comma of the string.
  lemma {:induction false} EscapedSplits(s: string, a: string, b: string) returns (i: nat)
    requires KeyEscaped(s) == a + [','] + b
    ensures i < |s| && s[i] == ',' && KeyEscaped(s[i + 1..]) == b
    decreases |s|
  {
    assert (a + [','] + b)[|a|] == ',';
    assert s != [];
    var head, rest := KeyEscape(s[0]), KeyEscaped(s[1..]);
    if a == [] {
      assert (head + rest)[0] == head[0] == ',';
      assert (head + rest)[1..] == rest && ([] + [','] + b)[1..] == b;
      i := 0;
    } else {
      assert |a| >= |head| by {
        assert |head| == 2 ==> (head + rest)[1] == head[1] != ',';
      }
      assert (head + rest)[|head|..] == rest;
      assert (a + [','] + b)[|head|..] == a[|head|..] + [','] + b;
      var k := EscapedSplits(s[1..], a[|head|..], b);
      i := k + 1;
      assert s[i + 1..] == s[1..][k + 1..];
    }
  }

  lemma {:induction false} PlainStays(s: string)
    requires '\\' !in s && '\0' !in s
    ensures KeyEscaped(s) == s
  {
    if s != [] {
      assert s == [s[0]] + s[1..];
      PlainStays(s[1..]);
    }
  }

  lemma PlainKey(v: Value, c: char)
    requires Scalar(v) && !v.StringVal? && (c == ',' || c == '\\' || c == '\0')
    ensures c !in StableKey(v)
  {
    match v
    case Integer(i) => IntText(i, c);
    case FloatVal(f) => DigitsOnly(f, c);
    case NodeVal(n) => DigitsOnly(n.id, c);
    case RelVal(e) => DigitsOnly(e.id, c);
    case _ =>
  }

  // A string whose escaped form is the key of the scalar.
  lemma KeyAsText(v: Value) returns (t: string)
    requires Scalar(v)
    ensures EscapeForKey(t) == StableKey(v)
  {
    if v.StringVal? {
      t := "S:" + v.s;
      EscapeForKeyIs(t);
      EscapeForKeyIs(v.s);
      KeyEscapedAppend("S:", v.s);
      PlainStays("S:");
    } else {
      t := StableKey(v);
      PlainKey(v, '\\');
      PlainKey(v, '\0');
      EscapeForKeyIs(t);
      PlainStays(t);
    }
  }

  lemma StringKey(s: string)
    ensures StableKey(StringVal(s)) == "S:" + EscapeForKey(s)
  {
  }

  lemma CommaInKey(s: string, t: string)
    ensures StableKey(StringVal(s + [','] + t)) == StableKey(StringVal(s)) + [','] + EscapeForKey(t)
  {
    hide EscapeForKey, KeyEscaped;
    StringKey(s);
    StringKey(s + [','] + t);
    EscapeForKeyIs(s);
    EscapeForKeyIs(t);
    EscapeForKeyIs(s + [','] + t);
    KeyEscapedAppend(s + [','], t);
    KeyEscapedAppend(s, [',']);
    assert KeyEscaped([',']) == [','] by {
      PlainStays([',']);
    }
  }

  // --- Lists ---

  lemma KeysSplit(x: seq<Value>, y: seq<Value>)
    ensures StableKeysOf(x + y) == StableKeysOf(x) + StableKeysOf(y)
  {
    hide StableKey;
  }

  lemma SameKeyIsSameJoin(x: seq<Value>, y: seq<Value>)
    ensures StableKey(ListVal(x)) == StableKey(ListVal(y)) <==> Join(StableKeysOf(x), ',') == Join(StableKeysOf(y), ',')
  {
    hide StableKey;
    ListKeyIs(x);
    ListKeyIs(y);
    SameText("L:[", Join(StableKeysOf(x), ','), Join(StableKeysOf(y), ','), "]");
  }

  // Merging a string and its successor into one string keeps the key.
  lemma MergedList(before: seq<Value>, s: string, v: Value, after: seq<Value>, t: string)
    requires Scalar(v) && EscapeForKey(t) == StableKey(v)
    ensures StableKey(ListVal(before + [StringVal(s)] + [v] + after))
         == StableKey(ListVal(before + [StringVal(s + [','] + t)] + after))
  {
    hide StableKey;
    var x, y := before + [StringVal(s)] + [v] + after, before + [StringVal(s + [','] + t)] + after;
    var b, a := StableKeysOf(before), StableKeysOf(after);
    KeysSplit(before + [StringVal(s)] + [v], after);
    KeysSplit(before + [StringVal(s)], [v]);
    KeysSplit(before, [StringVal(s)]);
    KeysSplit(before + [StringVal(s + [','] + t)], after);
    KeysSplit(before, [StringVal(s + [','] + t)]);
    assert StableKeysOf([v]) == [StableKey(v)] && StableKeysOf([StringVal(s)]) == [StableKey(StringVal(s))];
    assert StableKeysOf([StringVal(s + [','] + t)]) == [StableKey(StringVal(s + [','] + t))];
    CommaInKey(s, t);
    JoinMerged(b, StableKey(StringVal(s)), StableKey(v), a, ',');
    SameKeyIsSameJoin(x, y);
  }

  // Every ambiguous list shares its key with a list of another length.
  lemma AmbiguousIsShared(x: seq<Value>) returns (y: seq<Value>)
    requires Flat(x) && !Unambiguous(x)
    ensures Flat(y) && |y| != |x| && StableKey(ListVal(x)) == StableKey(ListVal(y))
  {
    hide StableKey, EscapeForKey;
    if i :| 0 <= i < |x| - 1 && x[i].StringVal? {
      var before, after := x[..i], x[i + 2..];
      var t := KeyAsText(x[i + 1]);
      MergedList(before, x[i].s, x[i + 1], after, t);
      assert x == before + [StringVal(x[i].s)] + [x[i + 1]] + after;
      y := before + [StringVal(x[i].s + [','] + t)] + after;
    } else {
      var before, s := x[..|x| - 1], Last(x).s;
      var i, v: Value :| 0 <= i < |s| && s[i] == ',' && Scalar(v) && StableKey(v) == EscapeForKey(s[i + 1..]);
      MergedList(before, s[..i], v, [], s[i + 1..]);
      assert s[..i] + [','] + s[i + 1..] == s;
      assert x == before + [StringVal(s)] + [];
      y := before + [StringVal(s[..i])] + [v] + [];
    }
  }

  lemma HeadOfJoin(x: seq<Value>)
    requires x != []
    ensures var j := Join(StableKeysOf(x), ',');
            j != [] && j[0] == KindTag(x[0]) && StableKey(x[0]) <= j
  {
    hide StableKey;
    var p := StableKeysOf(x);
    KeyHead(x[0]);
    if |p| > 1 {
      JoinCons(p, ',');
    }
  }

  lemma TailKeys(x: seq<Value>)
    requires |x| > 1
    ensures Join(StableKeysOf(x), ',') == StableKey(x[0]) + [','] + Join(StableKeysOf(x[1..]), ',')
  {
    hide StableKey;
    JoinCons(StableKeysOf(x), ',');
    assert StableKeysOf(x)[1..] == StableKeysOf(x[1..]);
  }

  lemma InitKeys(x: seq<Value>)
    requires |x| > 1
    ensures Join(StableKeysOf(x), ',') == Join(StableKeysOf(x[..|x| - 1]), ',') + [','] + StableKey(Last(x))
  {
    hide StableKey;
    assert StableKeysOf(x)[..|x| - 1] == StableKeysOf(x[..|x| - 1]);
  }

  lemma StringHead(v: Value)
    requires Scalar(v) && KindTag(v) == 'S'
    ensures "S:" <= StableKey(v)
  {
  }

  // One string cannot be read as several items unless it ends in a key.
  lemma StringAlone(s: string, y: seq<Value>)
    requires Flat(y) && |y| > 1 && Join(StableKeysOf(y), ',') == StableKey(StringVal(s))
    ensures EndsInKey(s)
  {
    hide StableKey, KindTag, EscapeForKey, KeyEscaped;
    var init, l := y[..|y| - 1], Last(y);
    HeadOfJoin(y);
    HeadOfJoin(init);
    KeyHead(StringVal(s));
    TagOfString(StringVal(s));
    StringHead(y[0]);
    InitKeys(y);
    EscapeForKeyIs(s);
    StringKey(s);
    AfterHead(KeyEscaped(s), Join(StableKeysOf(init), ','), StableKey(l));
    var i := EscapedSplits(s, Join(StableKeysOf(init), ',')[2..], StableKey(l));
    EscapeForKeyIs(s[i + 1..]);
  }

  lemma AfterHead(e: string, j: string, k: string)
    requires "S:" <= j && "S:" + e == j + [','] + k
    ensures e == j[2..] + [','] + k
  {
    assert ("S:" + e)[2..] == e;
    assert (j + [','] + k)[2..] == j[2..] + [','] + k;
  }

  lemma {:induction false} UnambiguousIsAlone(x: seq<Value>, y: seq<Value>)
    requires Flat(x) && Flat(y) && Unambiguous(x)
    requires Join(StableKeysOf(x), ',') == Join(StableKeysOf(y), ',')
    ensures |x| == |y| && forall i :: 0 <= i < |x| ==> SameValue(x[i], y[i])
    decreases |x|
  {
    hide StableKey, SameValue, EndsInKey, KindTag;
    if x != [] { HeadOfJoin(x); }
    if y != [] { HeadOfJoin(y); }
    if x != [] && y != [] {
      TagOfString(x[0]);
      TagOfString(y[0]);
      if |x| > 1 { TailKeys(x); }
      if |y| > 1 { TailKeys(y); }
      if x[0].StringVal? {
        if |y| > 1 { StringAlone(x[0].s, y); }
        ScalarKeys(x[0], y[0]);
      } else {
        PlainKey(x[0], ',');
        PlainKey(y[0], ',');
        LoneHeads(StableKey(x[0]), StableKey(y[0]), x, y);
        ScalarKeys(x[0], y[0]);
        if |x| > 1 {
          FirstSplits(StableKey(x[0]), Join(StableKeysOf(x[1..]), ','), StableKey(y[0]), Join(StableKeysOf(y[1..]), ','), ',');
          UnambiguousIsAlone(x[1..], y[1..]);
          forall i | 0 <= i < |x| ensures SameValue(x[i], y[i]) {
            if i > 0 {
              assert SameValue(x[1..][i - 1], y[1..][i - 1]);
            }
          }
        }
      }
    }
  }

  lemma TagOfString(v: Value)
    ensures KindTag(v) == 'S' <==> v.StringVal?
  {
  }

  // With a comma-free first item on both sides, both lists go on or neither does.
  lemma LoneHeads(a: string, b: string, x: seq<Value>, y: seq<Value>)
    requires x != [] && y != [] && ',' !in a && ',' !in b && a == StableKey(x[0]) && b == StableKey(y[0])
    requires Join(StableKeysOf(x), ',') == Join(StableKeysOf(y), ',')
    ensures |x| > 1 <==> |y| > 1
  {
    hide StableKey;
    if |x| > 1 {
      TailKeys(x);
      assert Join(StableKeysOf(x), ',')[|a|] == ',';
    }
    if |y| > 1 {
      TailKeys(y);
      assert Join(StableKeysOf(y), ',')[|b|] == ',';
    }
  }

  // Among lists of scalars and entities, the key of `x` is that of no other
  // list exactly when `x` is unambiguous.
  lemma ListKeyIsTight(x: seq<Value>)
    requires Flat(x)
    ensures Unambiguous(x) <==>
            forall y | Flat(y) && StableKey(ListVal(y)) == StableKey(ListVal(x)) :: SameValue(ListVal(x), ListVal(y))
  {
    hide StableKey, SameValue, Unambiguous;
    if Unambiguous(x) {
      forall y | Flat(y) && StableKey(ListVal(y)) == StableKey(ListVal(x)) ensures SameValue(ListVal(x), ListVal(y)) {
        SameKeyIsSameJoin(x, y);
        UnambiguousIsAlone(x, y);
        SameLists(x, y);
      }
    } else {
      var y := AmbiguousIsShared(x);
      SameLists(x, y);
    }
  }
}
