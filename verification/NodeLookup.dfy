// What `find_nodes` returns: the nodes that fit, read off the smallest posting
// list, and when that is what a plain scan returns.

module NodeLookup {
  import opened GraphTypes
  import opened Sequences
  import opened Floats
  import opened AbstractGraph

  predicate NoNaN(props: Props) {
    forall k :: k in props ==> NotNaN(props[k])
  }

  predicate NoZero(props: Props) {
    forall k :: k in props ==> NotZeroFloat(props[k])
  }

  // The posting lists as sets of nodes: by label, and by value bit for bit.
  ghost function LabelHolders(g: Graph, lab: string): set<NodeId> {
    set i | i in g.nodes && lab in g.nodes[i].labels
  }

  ghost function ValueHolders(g: Graph, key: string, value: PropertyValue): set<NodeId> {
    set i | i in g.nodes && key in g.nodes[i].props && g.nodes[i].props[key] == value
  }

  // The list the lookup starts from.
  datatype Seed = EveryNode | ByLabel | ByKey(key: string)

  ghost function SeedSet(g: Graph, labels: seq<string>, props: Props, seed: Seed): set<NodeId> {
    match seed
    case EveryNode => g.nodes.Keys
    case ByLabel => if labels == [] then {} else LabelHolders(g, labels[0])
    case ByKey(k) => if k in props then ValueHolders(g, k, props[k]) else {}
  }

  // `seed` is a smallest list among the label's and those of `keys`, the label's
  // winning a tie; which key wins a tie among keys is the hash map's choice.
  ghost predicate Smallest(g: Graph, labels: seq<string>, props: Props, keys: set<string>, seed: Seed) {
    && (seed.EveryNode? <==> labels == [] && keys == {})
    && (seed.ByLabel? ==> labels != [])
    && (seed.ByKey? ==> seed.key in keys)
    && (seed.ByKey? && labels != [] ==> |SeedSet(g, labels, props, seed)| < |SeedSet(g, labels, props, ByLabel)|)
    && (!seed.EveryNode? ==> forall k :: k in keys ==> |SeedSet(g, labels, props, seed)| <= |SeedSet(g, labels, props, ByKey(k))|)
  }

  // What one answer of the lookup is.
  ghost predicate Finds(g: Graph, labels: seq<string>, props: Props, ids: seq<NodeId>) {
    exists seed :: Smallest(g, labels, props, props.Keys, seed)
                && Enumerates(ids, SeedSet(g, labels, props, seed) * FindSet(g, labels, props))
  }

  lemma FitsAreLabelled(g: Graph, labels: seq<string>, props: Props)
    ensures labels != [] ==> FindSet(g, labels, props) <= LabelHolders(g, labels[0])
    ensures FindSet(g, labels, props) <= g.nodes.Keys
  {
  }

  lemma SameBits(a: PropertyValue, b: PropertyValue)
    requires PropEq(a, b) && NotZeroFloat(b)
    ensures a == b
  {
  }

  lemma SeedWithoutZero(g: Graph, labels: seq<string>, props: Props, seed: Seed)
    requires Smallest(g, labels, props, props.Keys, seed) && (seed.ByKey? ==> NotZeroFloat(props[seed.key]))
    ensures FindSet(g, labels, props) <= SeedSet(g, labels, props, seed)
  {
    FitsAreLabelled(g, labels, props);
    if seed.ByKey? {
      forall i | i in FindSet(g, labels, props) ensures i in ValueHolders(g, seed.key, props[seed.key]) {
        SameBits(g.nodes[i].props[seed.key], props[seed.key]);
      }
    }
  }

  lemma SeedHoldsByKey(g: Graph, labels: seq<string>, props: Props, seed: Seed, i: NodeId)
    requires Smallest(g, labels, props, props.Keys, seed)
    requires i in FindSet(g, labels, props) && HasPropsByKey(g.nodes[i].props, props)
    ensures i in SeedSet(g, labels, props, seed)
  {
  }

  // Only nodes that fit; all that hold the required values bit for bit; all
  // that fit when no value is a zero float.
  lemma FindsMeans(g: Graph, labels: seq<string>, props: Props, ids: seq<NodeId>)
    requires Finds(g, labels, props, ids)
    ensures NoDup(ids) && forall i :: i in ids ==> i in FindSet(g, labels, props)
    ensures forall i :: i in FindSet(g, labels, props) && HasPropsByKey(g.nodes[i].props, props) ==> i in ids
    ensures NoZero(props) ==> Enumerates(ids, FindSet(g, labels, props))
  {
    hide FindSet, SeedSet, Smallest;
    var seed :| Smallest(g, labels, props, props.Keys, seed)
             && Enumerates(ids, SeedSet(g, labels, props, seed) * FindSet(g, labels, props));
    LiveFits(g, labels, props);
    forall i | i in FindSet(g, labels, props) && HasPropsByKey(g.nodes[i].props, props) ensures i in ids {
      SeedHoldsByKey(g, labels, props, seed, i);
    }
    if NoZero(props) {
      SeedKeyIsRequired(g, labels, props, seed);
      SeedWithoutZero(g, labels, props, seed);
      assert SeedSet(g, labels, props, seed) * FindSet(g, labels, props) == FindSet(g, labels, props);
    }
  }

  lemma LiveFits(g: Graph, labels: seq<string>, props: Props)
    ensures forall i :: i in FindSet(g, labels, props) ==> i in g.nodes
  {
  }

  lemma SeedKeyIsRequired(g: Graph, labels: seq<string>, props: Props, seed: Seed)
    requires Smallest(g, labels, props, props.Keys, seed)
    ensures seed.ByKey? ==> seed.key in props
  {
  }

  // An empty list on the way means nothing is found, whatever the others hold.
  lemma EmptyListFindsNothing(g: Graph, labels: seq<string>, props: Props, seed: Seed)
    requires if seed.ByKey? then seed.key in props else seed.ByLabel? && labels != []
    requires SeedSet(g, labels, props, seed) == {}
    ensures Finds(g, labels, props, [])
  {
    var s := if labels != [] && LabelHolders(g, labels[0]) == {} then ByLabel else seed;
    assert Smallest(g, labels, props, props.Keys, s);
    assert Enumerates<NodeId>([], SeedSet(g, labels, props, s) * FindSet(g, labels, props));
  }

  lemma {:induction false} SmallestExists(g: Graph, labels: seq<string>, props: Props, keys: set<string>) returns (seed: Seed)
    requires keys <= props.Keys
    ensures Smallest(g, labels, props, keys, seed)
    decreases |keys|
  {
    hide SeedSet;
    if keys == {} {
      seed := if labels == [] then EveryNode else ByLabel;
    } else {
      var k :| k in keys;
      var s := SmallestExists(g, labels, props, keys - {k});
      if s.EveryNode? || |SeedSet(g, labels, props, ByKey(k))| < |SeedSet(g, labels, props, s)| {
        seed := ByKey(k);
      } else {
        seed := s;
      }
    }
  }

  lemma SomeAnswer(g: Graph, labels: seq<string>, props: Props) returns (ids: seq<NodeId>)
    ensures Finds(g, labels, props, ids)
  {
    hide FindSet, SeedSet, Smallest;
    var seed := SmallestExists(g, labels, props, props.Keys);
    var c := SeedSet(g, labels, props, seed) * FindSet(g, labels, props);
    ids := SortedIds(c);
    ListsEnumerates(ids, c);
  }

  // The lookup is the plain scan on every graph exactly when no required value
  // is a zero float, or one is a NaN so that nothing fits.
  lemma FindIsTight(labels: seq<string>, props: Props)
    ensures (NoZero(props) || !NoNaN(props)) <==>
              forall g: Graph, ids: seq<NodeId> | GraphOk(g) && Finds(g, labels, props, ids) ::
                Enumerates(ids, FindSet(g, labels, props))
  {
    if NoZero(props) || !NoNaN(props) {
      forall g: Graph, ids: seq<NodeId> | GraphOk(g) && Finds(g, labels, props, ids)
        ensures Enumerates(ids, FindSet(g, labels, props))
      {
        FindsMeans(g, labels, props, ids);
        if !NoNaN(props) {
          NaNFitsNothing(g, labels, props);
          NonEmptyHasMember(ids);
        }
      }
    } else {
      var k :| k in props && !NotZeroFloat(props[k]);
      var other := Float(if props[k].f == 0 then TWO63 else 0);
      var g := AddNode(EmptyGraph, labels, props[k := other]);
      assert g.nodes == map[0 := g.nodes[0]] && GraphOk(g);
      assert 0 in FindSet(g, labels, props);
      assert SeedSet(g, labels, props, ByKey(k)) == {};
      EmptyListFindsNothing(g, labels, props, ByKey(k));
      assert !Enumerates<NodeId>([], FindSet(g, labels, props));
    }
  }

  lemma NaNFitsNothing(g: Graph, labels: seq<string>, props: Props)
    requires !NoNaN(props)
    ensures FindSet(g, labels, props) == {}
  {
    var k :| k in props && !NotNaN(props[k]);
    forall i ensures i !in FindSet(g, labels, props) {
      assert i in g.nodes && k in g.nodes[i].props ==> !PropEq(g.nodes[i].props[k], props[k]);
    }
  }
}
