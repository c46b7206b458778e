// The constraint tables of the in-memory storage and the checks made against
// them, and the CREATE of a single node, which runs the checks first.

module ConstrainedStorages {
  import opened GraphTypes
  import opened Sequences
  import opened AbstractGraph
  import opened IndexTables
  import opened MemoryStorages
  import opened ConstraintRules

  class ConstrainedStorage {
    const data: MemoryStorage
    var uniqueConstraints: map<string, set<string>>
    var notNullConstraints: map<string, set<string>>
    var nodeKeyConstraints: map<string, seq<seq<string>>>
    var propertyTypeConstraints: map<string, map<string, Kind>>

    function RulesNow(): Rules
      reads this
    {
      Rules(uniqueConstraints, notNullConstraints, nodeKeyConstraints, propertyTypeConstraints)
    }

    ghost function Now(): State
      reads this, data
    {
      State(data.View(), RulesNow())
    }

    // Every registered constraint holds of all live nodes.
    ghost predicate Valid()
      reads this, data
    {
      data.Valid() && RulesHold(RulesNow(), data.nodes)
    }

    constructor (storage: MemoryStorage)
      requires storage.Valid()
      ensures data == storage && RulesNow() == NoRules && Valid()
    {
      data := storage;
      uniqueConstraints, notNullConstraints := map[], map[];
      nodeKeyConstraints, propertyTypeConstraints := map[], map[];
    }

    // --- Registration ---

    method AddUniqueConstraint(lab: string, key: string) returns (r: Outcome<()>)
      requires data.Valid()
      modifies this
      ensures r.Ok? <==> CanRegister(Unique(lab, key), data.nodes)
      ensures RulesNow() == if r.Ok? then Register(old(RulesNow()), Unique(lab, key)) else old(RulesNow())
      ensures r.Ok? ==> forall d :: Registered(RulesNow(), d) <==> d == Unique(lab, key) || Registered(old(RulesNow()), d)
    {
      hide MemoryStorage.Valid, PrintedAt, SeenKeys, Registered;
      LabelPostingIs(data, lab);
      var ids := LabelPosting(data.labelIndex, lab);
      var seen: map<PropertyValue, NodeId> := map[];
      var rest := ids;
      NothingSeen(data.nodes, key, ids);
      while rest != {}
        invariant rest <= ids && SeenKeys(data.nodes, key, ids - rest, seen)
        invariant RulesNow() == old(RulesNow())
        decreases |rest|
      {
        var nid: NodeId :| nid in rest;
        ghost var before := ids - rest;
        rest := rest - {nid};
        assert ids - rest == before + {nid};
        SeenOneMore(data.nodes, key, before, seen, nid);
        var text := PrintedAt(data.nodes[nid].props, key);
        if text.Some? {
          if text.value in seen {
            SeenTwice(data.nodes, lab, key, before, seen, nid);
            return Err(UniqueViolation(lab, key));
          }
          seen := seen[text.value := nid];
        }
      }
      assert ids - {} == ids;
      SeenAll(data.nodes, lab, key, ids, seen);
      RegistersOnly(RulesNow(), Unique(lab, key));
      uniqueConstraints := Register(RulesNow(), Unique(lab, key)).unique;
      r := Ok(());
    }

    method AddNotNullConstraint(lab: string, key: string) returns (r: Outcome<()>)
      requires data.Valid()
      modifies this
      ensures r.Ok? <==> CanRegister(NotNull(lab, key), data.nodes)
      ensures RulesNow() == if r.Ok? then Register(old(RulesNow()), NotNull(lab, key)) else old(RulesNow())
      ensures r.Ok? ==> forall d :: Registered(RulesNow(), d) <==> d == NotNull(lab, key) || Registered(old(RulesNow()), d)
    {
      hide MemoryStorage.Valid, Registered;
      LabelPostingIs(data, lab);
      if nid: NodeId :| nid in LabelPosting(data.labelIndex, lab) && key !in data.nodes[nid].props {
        assert Labelled(data.nodes, nid, lab);
        return Err(NotNullViolation(lab, key));
      }
      RegistersOnly(RulesNow(), NotNull(lab, key));
      notNullConstraints := Register(RulesNow(), NotNull(lab, key)).notNull;
      r := Ok(());
    }

    method AddNodeKeyConstraint(lab: string, keys: seq<string>) returns (r: Outcome<()>)
      requires data.Valid()
      modifies this
      ensures r.Ok? <==> CanRegister(NodeKey(lab, keys), data.nodes)
      ensures RulesNow() == if r.Ok? then Register(old(RulesNow()), NodeKey(lab, keys)) else old(RulesNow())
      ensures r.Ok? ==> forall d :: Registered(RulesNow(), d) <==> d == NodeKey(lab, keys) || Registered(old(RulesNow()), d)
    {
      hide MemoryStorage.Valid, PrintedTuple, Registered;
      LabelPostingIs(data, lab);
      var ids := LabelPosting(data.labelIndex, lab);
      var seen: map<seq<Option<PropertyValue>>, NodeId> := map[];
      var rest := ids;
      while rest != {}
        invariant rest <= ids
        invariant forall t :: t in seen ==> seen[t] in ids - rest && PrintedTuple(data.nodes[seen[t]].props, keys) == t
        invariant forall i :: i in ids - rest ==> HasKeys(data.nodes[i].props, keys)
        invariant forall i :: i in ids - rest ==>
                    PrintedTuple(data.nodes[i].props, keys) in seen && seen[PrintedTuple(data.nodes[i].props, keys)] == i
        decreases |rest|
      {
        var nid: NodeId :| nid in rest;
        rest := rest - {nid};
        assert Labelled(data.nodes, nid, lab);
        if !HasKeys(data.nodes[nid].props, keys) {
          return Err(NodeKeyViolation(lab));
        }
        var tuple := PrintedTuple(data.nodes[nid].props, keys);
        if tuple in seen {
          assert Labelled(data.nodes, seen[tuple], lab);
          return Err(NodeKeyViolation(lab));
        }
        seen := seen[tuple := nid];
      }
      RegistersOnly(RulesNow(), NodeKey(lab, keys));
      nodeKeyConstraints := Register(RulesNow(), NodeKey(lab, keys)).nodeKeys;
      r := Ok(());
    }

    method AddPropertyTypeConstraint(lab: string, key: string, kind: Kind) returns (r: Outcome<()>)
      requires data.Valid()
      modifies this
      ensures r.Ok? <==> CanRegister(PropertyType(lab, key, kind), data.nodes)
      ensures RulesNow() == if r.Ok? then Register(old(RulesNow()), PropertyType(lab, key, kind)) else old(RulesNow())
      ensures r.Ok? ==> forall d :: Registered(RulesNow(), d) <==> d == PropertyType(lab, key, kind) || (Registered(old(RulesNow()), d) && !Supersedes(PropertyType(lab, key, kind), d))
    {
      hide MemoryStorage.Valid, Registered;
      LabelPostingIs(data, lab);
      if nid: NodeId :| nid in LabelPosting(data.labelIndex, lab) && WrongKind(data.nodes[nid].props, key, kind) {
        assert Labelled(data.nodes, nid, lab);
        return Err(PropertyTypeViolation(lab, key));
      }
      RegistersOnly(RulesNow(), PropertyType(lab, key, kind));
      propertyTypeConstraints := Register(RulesNow(), PropertyType(lab, key, kind)).types;
      r := Ok(());
    }

    // --- Checks ---

    predicate HoldsEqual(nid: NodeId, lab: string, key: string, value: PropertyValue)
      reads data
    {
      Labelled(data.nodes, nid, lab) && key in data.nodes[nid].props && PropEq(data.nodes[nid].props[key], value)
    }

    // Probes the property index, then confirms label and value.
    method CheckUniqueConstraint(lab: string, key: string, value: PropertyValue) returns (r: Outcome<()>)
      requires data.Valid()
      ensures r.Err? <==> Registered(RulesNow(), Unique(lab, key)) && exists i | Labelled(data.nodes, i, lab) ::
                key in data.nodes[i].props && Clash(data.nodes[i].props[key], value)
    {
      hide MemoryStorage.Valid, PropEq;
      PropPostingIs(data, key, value);
      if lab in uniqueConstraints && key in uniqueConstraints[lab] {
        if nid: NodeId :| nid in PropPosting(data.propertyIndex, key, KeyOf(value)) && HoldsEqual(nid, lab, key, value) {
          return Err(UniqueViolation(lab, key));
        }
      }
      r := Ok(());
    }

    method CheckUniqueConstraints(labels: seq<string>, props: Props) returns (r: Outcome<()>)
      requires data.Valid()
      ensures r.Ok? <==> forall l, k :: Registered(RulesNow(), Unique(l, k)) ==> !Rejects(Unique(l, k), data.nodes, labels, props)
    {
      hide MemoryStorage.Valid, Clash;
      for j := 0 to |labels|
        invariant forall l, k :: l in labels[..j] && Registered(RulesNow(), Unique(l, k)) ==>
                    !Rejects(Unique(l, k), data.nodes, labels, props)
      {
        var rest := props.Keys;
        while rest != {}
          invariant rest <= props.Keys
          invariant forall k :: k !in rest && Registered(RulesNow(), Unique(labels[j], k)) ==>
                      !Rejects(Unique(labels[j], k), data.nodes, labels, props)
          decreases |rest|
        {
          var key :| key in rest;
          rest := rest - {key};
          r := CheckUniqueConstraint(labels[j], key, props[key]);
          if r.Err? {
            assert Rejects(Unique(labels[j], key), data.nodes, labels, props);
            return;
          }
        }
        assert labels[..j + 1] == labels[..j] + [labels[j]];
      }
      assert labels[..|labels|] == labels;
      r := Ok(());
    }

    method CheckNotNullConstraints(labels: seq<string>, props: Props) returns (r: Outcome<()>)
      ensures r.Ok? <==> forall l, k :: Registered(RulesNow(), NotNull(l, k)) ==> !Rejects(NotNull(l, k), data.nodes, labels, props)
    {
      for j := 0 to |labels|
        invariant forall l, k :: l in labels[..j] && Registered(RulesNow(), NotNull(l, k)) ==> k in props
      {
        if labels[j] in notNullConstraints {
          if key :| key in notNullConstraints[labels[j]] && key !in props {
            assert Registered(RulesNow(), NotNull(labels[j], key));
            assert Rejects(NotNull(labels[j], key), data.nodes, labels, props);
            return Err(NotNullViolation(labels[j], key));
          }
        }
        assert labels[..j + 1] == labels[..j] + [labels[j]];
      }
      assert labels[..|labels|] == labels;
      r := Ok(());
    }

    method CheckNodeKeyConstraints(labels: seq<string>, props: Props) returns (r: Outcome<()>)
      requires data.Valid()
      ensures r.Ok? <==> forall l, ks :: Registered(RulesNow(), NodeKey(l, ks)) ==> !Rejects(NodeKey(l, ks), data.nodes, labels, props)
    {
      hide MemoryStorage.Valid, PrintedTuple;
      for j := 0 to |labels|
        invariant forall l, ks :: l in labels[..j] && Registered(RulesNow(), NodeKey(l, ks)) ==>
                    !Rejects(NodeKey(l, ks), data.nodes, labels, props)
      {
        LabelPostingIs(data, labels[j]);
        if labels[j] in nodeKeyConstraints {
          var tuples := nodeKeyConstraints[labels[j]];
          for t := 0 to |tuples|
            invariant forall ks :: ks in tuples[..t] ==> !Rejects(NodeKey(labels[j], ks), data.nodes, labels, props)
          {
            assert tuples[t] in tuples && Registered(RulesNow(), NodeKey(labels[j], tuples[t]));
            assert tuples[..t + 1] == tuples[..t] + [tuples[t]];
            if !HasKeys(props, tuples[t]) {
              return Err(NodeKeyViolation(labels[j]));
            }
            var newKey := PrintedTuple(props, tuples[t]);
            if nid: NodeId :| nid in LabelPosting(data.labelIndex, labels[j]) && PrintedTuple(data.nodes[nid].props, tuples[t]) == newKey {
              assert Labelled(data.nodes, nid, labels[j]);
              return Err(NodeKeyViolation(labels[j]));
            }
          }
          assert tuples[..|tuples|] == tuples;
        }
        assert labels[..j + 1] == labels[..j] + [labels[j]];
      }
      assert labels[..|labels|] == labels;
      r := Ok(());
    }

    method CheckPropertyTypeConstraints(labels: seq<string>, props: Props) returns (r: Outcome<()>)
      ensures r.Ok? <==> forall l, k, kind :: Registered(RulesNow(), PropertyType(l, k, kind)) ==>
                !Rejects(PropertyType(l, k, kind), data.nodes, labels, props)
    {
      for j := 0 to |labels|
        invariant forall l, k, kind :: l in labels[..j] && Registered(RulesNow(), PropertyType(l, k, kind)) ==>
                    !Rejects(PropertyType(l, k, kind), data.nodes, labels, props)
      {
        if labels[j] in propertyTypeConstraints {
          var types := propertyTypeConstraints[labels[j]];
          if key :| key in types && WrongKind(props, key, types[key]) {
            assert Registered(RulesNow(), PropertyType(labels[j], key, types[key]));
            assert Rejects(PropertyType(labels[j], key, types[key]), data.nodes, labels, props);
            return Err(PropertyTypeViolation(labels[j], key));
          }
        }
        assert labels[..j + 1] == labels[..j] + [labels[j]];
      }
      assert labels[..|labels|] == labels;
      r := Ok(());
    }

    // --- CREATE of one node ---

    method CreateNode(labels: seq<string>, props: Props) returns (r: Outcome<NodeId>)
      requires data.Valid()
      modifies data
      ensures data.Valid()
      ensures r.Ok? <==> Accepts(RulesNow(), old(data.nodes), labels, props)
      ensures r.Ok? ==> r.value == old(data.nextNodeId) && data.View() == AddNode(old(data.View()), labels, props)
      ensures r.Err? ==> data.View() == old(data.View())
    {
      hide MemoryStorage.Valid, Rejects, Registered;
      AcceptsByKind(RulesNow(), data.nodes, labels, props);
      var unique := CheckUniqueConstraints(labels, props);
      if unique.Err? {
        return Err(unique.error);
      }
      var notNull := CheckNotNullConstraints(labels, props);
      if notNull.Err? {
        return Err(notNull.error);
      }
      var nodeKey := CheckNodeKeyConstraints(labels, props);
      if nodeKey.Err? {
        return Err(nodeKey.error);
      }
      var types := CheckPropertyTypeConstraints(labels, props);
      if types.Err? {
        return Err(types.error);
      }
      var id := data.CreateNode(labels, props);
      r := Ok(id);
    }

    // Any run of declarations, single-node CREATEs and writes that need no
    // check: the state is the one the steps describe, and every registered
    // constraint holds of all live nodes.
    method Run(steps: seq<Step>)
      requires Valid() && forall i :: 0 <= i < |steps| ==> InRunSet(steps[i])
      modifies this, data
      ensures Valid()
      ensures Now() == NextAll(old(Now()), steps)
    {
      hide MemoryStorage.Valid, RulesHold, CanRegister, Register, Accepts, Apply;
      for j := 0 to |steps|
        invariant data.Valid() && RulesHold(RulesNow(), data.nodes)
        invariant Now() == NextAll(old(Now()), steps[..j])
      {
        assert Init(steps[..j + 1]) == steps[..j] && Last(steps[..j + 1]) == steps[j];
        StorageIsOk(data);
        StepKeepsRules(Now(), steps[j]);
        match steps[j] {
          case Declare(Unique(l, k)) => var _ := AddUniqueConstraint(l, k);
          case Declare(NotNull(l, k)) => var _ := AddNotNullConstraint(l, k);
          case Declare(NodeKey(l, ks)) => var _ := AddNodeKeyConstraint(l, ks);
          case Declare(PropertyType(l, k, kind)) => var _ := AddPropertyTypeConstraint(l, k, kind);
          case Create(labels, props) => var _ := CreateNode(labels, props);
          case Write(op) => data.Run([op]);
        }
      }
      assert steps[..|steps|] == steps;
    }
  }

  // The printed values of the nodes looked at so far, all different, each with
  // its node.
  ghost predicate SeenKeys(nodes: map<NodeId, Node>, key: string, done: set<NodeId>, seen: map<PropertyValue, NodeId>) {
    && (forall v :: v in seen ==> seen[v] in done && seen[v] in nodes && PrintedAt(nodes[seen[v]].props, key) == Some(v))
    && (forall i :: i in done && i in nodes && PrintedAt(nodes[i].props, key).Some? ==>
          PrintedAt(nodes[i].props, key).value in seen && seen[PrintedAt(nodes[i].props, key).value] == i)
  }

  lemma NothingSeen(nodes: map<NodeId, Node>, key: string, ids: set<NodeId>)
    ensures SeenKeys(nodes, key, ids - ids, map[])
  {
  }

  lemma SeenOneMore(nodes: map<NodeId, Node>, key: string, done: set<NodeId>, seen: map<PropertyValue, NodeId>, i: NodeId)
    requires SeenKeys(nodes, key, done, seen) && i !in done && i in nodes
    ensures var text := PrintedAt(nodes[i].props, key);
            if text.None? then SeenKeys(nodes, key, done + {i}, seen)
            else text.value !in seen ==> SeenKeys(nodes, key, done + {i}, seen[text.value := i])
  {
    hide PrintedAt;
  }

  lemma SeenTwice(nodes: map<NodeId, Node>, lab: string, key: string, done: set<NodeId>, seen: map<PropertyValue, NodeId>, i: NodeId)
    requires SeenKeys(nodes, key, done, seen) && i !in done && Labelled(nodes, i, lab)
    requires forall j :: j in done ==> Labelled(nodes, j, lab)
    requires PrintedAt(nodes[i].props, key).Some? && PrintedAt(nodes[i].props, key).value in seen
    ensures !CanRegister(Unique(lab, key), nodes)
  {
    var j := seen[PrintedAt(nodes[i].props, key).value];
    assert Labelled(nodes, j, lab);
  }

  lemma SeenAll(nodes: map<NodeId, Node>, lab: string, key: string, done: set<NodeId>, seen: map<PropertyValue, NodeId>)
    requires SeenKeys(nodes, key, done, seen) && forall j :: j in done <==> Labelled(nodes, j, lab)
    ensures CanRegister(Unique(lab, key), nodes)
  {
    forall i, j | i != j && Labelled(nodes, i, lab) && Labelled(nodes, j, lab)
      ensures key in nodes[i].props && key in nodes[j].props ==> Printed(nodes[i].props[key]) != Printed(nodes[j].props[key])
    {
      assert i in done && j in done;
    }
  }

  predicate WrongKind(props: Props, key: string, kind: Kind) {
    key in props && !MatchesKind(props[key], kind)
  }

  lemma AcceptsByKind(rules: Rules, nodes: map<NodeId, Node>, labels: seq<string>, props: Props)
    ensures Accepts(rules, nodes, labels, props) <==>
              && (forall l, k :: Registered(rules, Unique(l, k)) ==> !Rejects(Unique(l, k), nodes, labels, props))
              && (forall l, k :: Registered(rules, NotNull(l, k)) ==> !Rejects(NotNull(l, k), nodes, labels, props))
              && (forall l, ks :: Registered(rules, NodeKey(l, ks)) ==> !Rejects(NodeKey(l, ks), nodes, labels, props))
              && (forall l, k, kind :: Registered(rules, PropertyType(l, k, kind)) ==>
                    !Rejects(PropertyType(l, k, kind), nodes, labels, props))
  {
    hide Rejects;
    if !Accepts(rules, nodes, labels, props) {
      var c :| Registered(rules, c) && Rejects(c, nodes, labels, props);
      match c
      case Unique(l, k) => assert Registered(rules, Unique(l, k));
      case NotNull(l, k) => assert Registered(rules, NotNull(l, k));
      case NodeKey(l, ks) => assert Registered(rules, NodeKey(l, ks));
      case PropertyType(l, k, kind) => assert Registered(rules, PropertyType(l, k, kind));
    }
  }

  lemma LabelPostingIs(data: MemoryStorage, lab: string)
    requires data.Valid()
    ensures forall i :: i in LabelPosting(data.labelIndex, lab) <==> Labelled(data.nodes, i, lab)
  {
  }

  lemma PropPostingIs(data: MemoryStorage, key: string, value: PropertyValue)
    requires data.Valid()
    ensures forall i :: i in PropPosting(data.propertyIndex, key, KeyOf(value)) <==>
              i in data.nodes && key in data.nodes[i].props && data.nodes[i].props[key] == value
  {
    forall i ensures i in PropPosting(data.propertyIndex, key, KeyOf(value)) <==>
              i in data.nodes && IndexedUnder(data.nodes[i].props, key, KeyOf(value)) {}
  }
}
