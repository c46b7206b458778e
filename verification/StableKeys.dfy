// The text keys that stand for values in joins, deduplication and grouping:
// `cypher_value_to_stable_key` and the composite keys built from it.

module StableKeys {
  import opened GraphTypes
  import opened Floats
  import opened Decimals
  import opened Text

  function StableKey(v: Value): string
    decreases v
  {
    match v
    case Null => "N"
    case Boolean(b) => if b then "B:true" else "B:false"
    case Integer(i) => "I:" + IntToString(i)
    case FloatVal(f) => "F:" + NatToString(f)
    case StringVal(s) => "S:" + EscapeForKey(s)
    case ListVal(items) =>
      "L:[" + Join(seq(|items|, i requires 0 <= i < |items| => StableKey(items[i])), ',') + "]"
    case NodeVal(n) => "n:" + NatToString(n.id)
    case RelVal(e) => "r:" + NatToString(e.id)
    case PathVal(nodes, _) => "P:[" + Join(IdTexts(nodes), ',') + "]"
  }

  function IdTexts(nodes: seq<Node>): seq<string> {
    seq(|nodes|, i requires 0 <= i < |nodes| => NatToString(nodes[i].id))
  }

  function StableKeysOf(values: seq<Value>): (r: seq<string>)
    ensures |r| == |values|
  {
    seq(|values|, i requires 0 <= i < |values| => StableKey(values[i]))
  }

  // --- Which values a key tells apart ---

  predicate Scalar(v: Value) {
    !v.ListVal? && !v.PathVal?
  }

  // Equality of values as deduplication means it: floats by their bits, nodes
  // and relationships by id, paths by the nodes they visit, lists item by item.
  predicate SameValue(a: Value, b: Value) {
    match (a, b)
    case (Null, Null) => true
    case (Boolean(x), Boolean(y)) => x == y
    case (Integer(x), Integer(y)) => x == y
    case (FloatVal(x), FloatVal(y)) => x == y
    case (StringVal(x), StringVal(y)) => x == y
    case (NodeVal(x), NodeVal(y)) => x.id == y.id
    case (RelVal(x), RelVal(y)) => x.id == y.id
    case (PathVal(x, _), PathVal(y, _)) => |x| == |y| && forall i :: 0 <= i < |x| ==> x[i].id == y[i].id
    case (ListVal(x), ListVal(y)) => |x| == |y| && forall i :: 0 <= i < |x| ==> SameValue(x[i], y[i])
    case _ => false
  }

  // Scalars, entities, paths, and flat lists of scalars and entities without a
  // comma in any string.
  predicate Keyable(v: Value) {
    v.ListVal? ==> forall i :: 0 <= i < |v.items| ==> Scalar(v.items[i]) && ',' !in StableKey(v.items[i])
  }

  lemma {:induction false} DigitsOnly(n: nat, c: char)
    requires !IsDigit(c)
    ensures c !in NatToString(n)
  {
  }

  lemma IntText(i: int, c: char)
    requires !IsDigit(c) && c != '-'
    ensures c !in IntToString(i)
  {
    DigitsOnly(Abs(i), c);
  }

  lemma IdTextsApart(x: seq<Node>, y: seq<Node>)
    ensures Join(IdTexts(x), ',') == Join(IdTexts(y), ',') <==>
              |x| == |y| && forall i :: 0 <= i < |x| ==> x[i].id == y[i].id
  {
    var p, q := IdTexts(x), IdTexts(y);
    forall n: nat ensures ',' !in NatToString(n) { DigitsOnly(n, ','); }
    if Join(p, ',') == Join(q, ',') {
      JoinInjective(p, q, ',');
      forall i | 0 <= i < |x| ensures x[i].id == y[i].id {
        assert p[i] == q[i];
        NatToStringInjective(x[i].id, y[i].id);
      }
    }
    if |x| == |y| && forall i :: 0 <= i < |x| ==> x[i].id == y[i].id {
      assert p == q;
    }
  }

  // The first character of a key says of which kind the value is.
  function KindTag(v: Value): char {
    match v
    case Null => 'N'
    case Boolean(_) => 'B'
    case Integer(_) => 'I'
    case FloatVal(_) => 'F'
    case StringVal(_) => 'S'
    case ListVal(_) => 'L'
    case NodeVal(_) => 'n'
    case RelVal(_) => 'r'
    case PathVal(_, _) => 'P'
  }

  lemma KeyHead(v: Value)
    ensures StableKey(v) != [] && StableKey(v)[0] == KindTag(v)
  {
  }

  lemma SameText(head: string, a: string, b: string, tail: string)
    ensures head + a + tail == head + b + tail <==> a == b
  {
    if head + a + tail == head + b + tail {
      assert |a| == |b|;
      assert (head + a + tail)[|head|..|head| + |a|] == a;
      assert (head + b + tail)[|head|..|head| + |b|] == b;
    }
  }

  // Two scalars have one key exactly when they are the same value.
  lemma ScalarKeys(a: Value, b: Value)
    requires Scalar(a) && Scalar(b)
    ensures StableKey(a) == StableKey(b) <==> SameValue(a, b)
  {
    KeyHead(a);
    KeyHead(b);
    if KindTag(a) == KindTag(b) {
      match a
      case Null =>
      case Boolean(_) =>
      case Integer(i) =>
        SameText("I:", IntToString(i), IntToString(b.i), "");
        if IntToString(i) == IntToString(b.i) { IntToStringInjective(i, b.i); }
      case FloatVal(f) =>
        SameText("F:", NatToString(f), NatToString(b.f), "");
        if NatToString(f) == NatToString(b.f) { NatToStringInjective(f, b.f); }
      case StringVal(s) =>
        SameText("S:", EscapeForKey(s), EscapeForKey(b.s), "");
        EscapeForKeyIs(s);
        EscapeForKeyIs(b.s);
        if KeyEscaped(s) == KeyEscaped(b.s) { KeyEscapedInjective(s, b.s); }
      case NodeVal(n) =>
        SameText("n:", NatToString(n.id), NatToString(b.node.id), "");
        if NatToString(n.id) == NatToString(b.node.id) { NatToStringInjective(n.id, b.node.id); }
      case RelVal(e) =>
        SameText("r:", NatToString(e.id), NatToString(b.edge.id), "");
        if NatToString(e.id) == NatToString(b.edge.id) { NatToStringInjective(e.id, b.edge.id); }
    }
  }

  lemma SameLists(x: seq<Value>, y: seq<Value>)
    ensures SameValue(ListVal(x), ListVal(y)) <==> |x| == |y| && forall i :: 0 <= i < |x| ==> SameValue(x[i], y[i])
  {
  }

  lemma FlatListKeys(x: seq<Value>, y: seq<Value>)
    requires Keyable(ListVal(x)) && Keyable(ListVal(y))
    ensures Join(StableKeysOf(x), ',') == Join(StableKeysOf(y), ',') <==> SameValue(ListVal(x), ListVal(y))
  {
    hide StableKey, SameValue;
    var p, q := StableKeysOf(x), StableKeysOf(y);
    SameLists(x, y);
    forall i | 0 <= i < |x| ensures p[i] != [] { KeyHead(x[i]); }
    forall i | 0 <= i < |y| ensures q[i] != [] { KeyHead(y[i]); }
    forall i | 0 <= i < |x| && i < |y| ensures p[i] == q[i] <==> SameValue(x[i], y[i]) { ScalarKeys(x[i], y[i]); }
    if Join(p, ',') == Join(q, ',') {
      JoinInjective(p, q, ',');
    }
    if SameValue(ListVal(x), ListVal(y)) {
      assert p == q;
    }
  }

  // The key of a keyable value identifies it.
  lemma KeysIdentify(a: Value, b: Value)
    requires Keyable(a) && Keyable(b)
    ensures StableKey(a) == StableKey(b) <==> SameValue(a, b)
  {
    KeyHead(a);
    KeyHead(b);
    if Scalar(a) && Scalar(b) {
      ScalarKeys(a, b);
    } else if a.ListVal? && b.ListVal? {
      var p, q := StableKeysOf(a.items), StableKeysOf(b.items);
      assert StableKey(a) == "L:[" + Join(p, ',') + "]" && StableKey(b) == "L:[" + Join(q, ',') + "]";
      SameText("L:[", Join(p, ','), Join(q, ','), "]");
      FlatListKeys(a.items, b.items);
    } else if a.PathVal? && b.PathVal? {
      SameText("P:[", Join(IdTexts(a.nodes), ','), Join(IdTexts(b.nodes), ','), "]");
      IdTextsApart(a.nodes, b.nodes);
    }
  }

  lemma {:induction false} KeyEscapedAppend(s: string, t: string)
    ensures KeyEscaped(s + t) == KeyEscaped(s) + KeyEscaped(t)
  {
    if s == [] {
      assert s + t == t;
    } else {
      assert (s + t)[0] == s[0] && (s + t)[1..] == s[1..] + t;
      KeyEscapedAppend(s[1..], t);
    }
  }

  lemma EscapedComma(s: string, t: string)
    ensures EscapeForKey(s + ",S:" + t) == EscapeForKey(s) + ",S:" + EscapeForKey(t)
  {
    EscapeForKeyIs(s);
    EscapeForKeyIs(t);
    EscapeForKeyIs(s + ",S:" + t);
    KeyEscapedAppend(s, ",S:" + t);
    KeyEscapedAppend(",S:", t);
    assert s + (",S:" + t) == s + ",S:" + t;
    assert ",S:"[1..] == "S:" && "S:"[1..] == ":" && ":"[1..] == "";
    assert KeyEscaped(":") == ":" && KeyEscaped("S:") == "S:" && KeyEscaped(",S:") == ",S:";
  }

  lemma ListKeyIs(items: seq<Value>)
    ensures StableKey(ListVal(items)) == "L:[" + Join(StableKeysOf(items), ',') + "]"
  {
  }

  lemma CommaBetween(a: string, b: string)
    ensures "S:" + (a + ",S:" + b) == ("S:" + a) + [','] + ("S:" + b)
  {
    assert ",S:" == [','] + "S:";
  }

  // A comma in a listed string can make keys collide: for any two strings the
  // list of both has the key of the list of the two joined this way.
  lemma ListKeysCollide(s: string, t: string)
    ensures StableKey(ListVal([StringVal(s), StringVal(t)])) == StableKey(ListVal([StringVal(s + ",S:" + t)]))
    ensures !SameValue(ListVal([StringVal(s), StringVal(t)]), ListVal([StringVal(s + ",S:" + t)]))
  {
    var two, one := [StringVal(s), StringVal(t)], [StringVal(s + ",S:" + t)];
    var p, q, whole := "S:" + EscapeForKey(s), "S:" + EscapeForKey(t), "S:" + EscapeForKey(s + ",S:" + t);
    assert StableKeysOf(two) == [p, q] && StableKeysOf(one) == [whole];
    ListKeyIs(two);
    ListKeyIs(one);
    hide StableKey, EscapeForKey, StableKeysOf;
    EscapedComma(s, t);
    JoinSnoc([p], ',', q);
    CommaBetween(EscapeForKey(s), EscapeForKey(t));
    assert [p, q] == [p] + [q];
  }

  // --- Composite keys ---

  lemma {:induction false} JoinAvoids(parts: seq<string>, sep: char, c: char)
    requires c != sep && forall i :: 0 <= i < |parts| ==> c !in parts[i]
    ensures c !in Join(parts, sep)
  {
    if |parts| > 1 {
      JoinAvoids(parts[..|parts| - 1], sep, c);
    }
  }

  lemma {:induction false} KeyHasNoNul(v: Value)
    ensures '\0' !in StableKey(v)
    decreases v
  {
    match v
    case Integer(i) => IntText(i, '\0');
    case FloatVal(f) => DigitsOnly(f, '\0');
    case StringVal(s) => EscapeForKeyIs(s); KeyEscapedHasNoNul(s);
    case NodeVal(n) => DigitsOnly(n.id, '\0');
    case RelVal(e) => DigitsOnly(e.id, '\0');
    case ListVal(items) =>
      var parts := StableKeysOf(items);
      forall i | 0 <= i < |items| ensures '\0' !in parts[i] { KeyHasNoNul(items[i]); }
      JoinAvoids(parts, ',', '\0');
      assert StableKey(v) == "L:[" + Join(parts, ',') + "]";
    case PathVal(nodes, _) =>
      var parts := IdTexts(nodes);
      forall i | 0 <= i < |nodes| ensures '\0' !in parts[i] { DigitsOnly(nodes[i].id, '\0'); }
      JoinAvoids(parts, ',', '\0');
    case _ =>
  }

  function CompositeKey(values: seq<Value>): string {
    Join(StableKeysOf(values), '\0')
  }

  // Two tuples share a composite key exactly when they share every key.
  lemma CompositeKeys(x: seq<Value>, y: seq<Value>)
    ensures CompositeKey(x) == CompositeKey(y) <==> StableKeysOf(x) == StableKeysOf(y)
  {
    hide StableKey;
    forall v: Value ensures '\0' !in StableKey(v) && StableKey(v) != [] { KeyHasNoNul(v); KeyHead(v); }
    if CompositeKey(x) == CompositeKey(y) {
      JoinInjective(StableKeysOf(x), StableKeysOf(y), '\0');
    }
  }

  predicate SameTuple(x: seq<Value>, y: seq<Value>) {
    |x| == |y| && forall i :: 0 <= i < |x| ==> SameValue(x[i], y[i])
  }

  // On keyable values the composite key identifies the tuple, whatever its length.
  lemma CompositeKeysIdentify(x: seq<Value>, y: seq<Value>)
    requires forall i :: 0 <= i < |x| ==> Keyable(x[i])
    requires forall i :: 0 <= i < |y| ==> Keyable(y[i])
    ensures CompositeKey(x) == CompositeKey(y) <==> SameTuple(x, y)
  {
    hide StableKey, SameValue, CompositeKey, Keyable;
    CompositeKeys(x, y);
    var p, q := StableKeysOf(x), StableKeysOf(y);
    forall i | 0 <= i < |x| && i < |y| ensures p[i] == q[i] <==> SameValue(x[i], y[i]) {
      KeysIdentify(x[i], y[i]);
    }
    if SameTuple(x, y) {
      assert p == q;
    }
    if p == q {
      assert |x| == |y|;
    }
  }
}
