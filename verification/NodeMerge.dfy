// MERGE of a node pattern over a batch of rows, without ON CREATE and ON MATCH
// items: find the nodes that fit, or create one.

module NodeMerge {
  import opened GraphTypes
  import opened Sequences
  import opened AbstractGraph
  import opened NodeLookup
  import opened MemoryStorages
  import opened Expressions
  import opened Planner
  import opened CreateClauses

  // --- The graph after a batch ---

  // The graph one row leaves, given what was found for it.
  function RowMerged(g: Graph, labels: seq<string>, props: Props, ids: seq<NodeId>): Graph {
    if ids == [] then AddNode(g, labels, props) else g
  }

  function Merged(g: Graph, labels: seq<string>, maps: seq<Props>, found: seq<seq<NodeId>>): Graph
    requires |found| == |maps|
    decreases |maps|
  {
    if maps == [] then g
    else RowMerged(Merged(g, labels, Init(maps), Init(found)), labels, Last(maps), Last(found))
  }

  // Every row found what the lookup may answer on the graph as it then was.
  ghost predicate AllFound(g: Graph, labels: seq<string>, maps: seq<Props>, found: seq<seq<NodeId>>) {
    && |found| == |maps|
    && forall i :: 0 <= i < |maps| ==> Finds(Merged(g, labels, maps[..i], found[..i]), labels, maps[i], found[i])
  }

  // --- Rows ---

  function MergeVariable(np: NodePattern): string {
    if np.variable.Some? then np.variable.value else "_merge_node"
  }

  function BoundRows(g: Graph, rec: Record, v: string, ids: seq<NodeId>): (r: seq<Record>)
    requires forall i :: 0 <= i < |ids| ==> ids[i] in g.nodes
    ensures |r| == |ids|
  {
    seq(|ids|, i requires 0 <= i < |ids| => rec[v := NodeVal(g.nodes[ids[i]])])
  }

  // One row per node found, or one for the node created.
  ghost predicate MergeRows(g: Graph, rec: Record, np: NodePattern, props: Props, ids: seq<NodeId>, rows: seq<Record>) {
    if ids == [] then rows == [rec[MergeVariable(np) := NodeVal(Node(g.nextNode, np.labels, props))]]
    else (forall i :: 0 <= i < |ids| ==> ids[i] in g.nodes) && rows == BoundRows(g, rec, MergeVariable(np), ids)
  }

  // The property maps of the rows before the first one whose map is an error.
  function Maps(np: NodePattern, rows: seq<Record>, ctx: Context): (r: seq<Props>)
    ensures |r| <= |rows|
    ensures |r| < |rows| ==> PatternProps(np.props, rows[|r|], ctx).None?
    ensures forall i :: 0 <= i < |r| ==> PatternProps(np.props, rows[i], ctx) == Some(r[i])
  {
    if rows == [] then []
    else
      var before := Maps(np, Init(rows), ctx);
      var last := PatternProps(np.props, Last(rows), ctx);
      if |before| < |rows| - 1 || last.None? then before else before + [last.value]
  }

  lemma {:induction false} MapsStop(np: NodePattern, rows: seq<Record>, ctx: Context, i: nat)
    requires i < |rows| && |Maps(np, rows[..i], ctx)| == i && PatternProps(np.props, rows[i], ctx).None?
    ensures Maps(np, rows, ctx) == Maps(np, rows[..i], ctx)
    decreases |rows| - i
  {
    hide PatternProps;
    MapsPrefix(np, rows, ctx, i + 1);
    assert Init(rows[..i + 1]) == rows[..i];
  }

  lemma {:induction false} MapsPrefix(np: NodePattern, rows: seq<Record>, ctx: Context, n: nat)
    requires n <= |rows| && |Maps(np, rows[..n], ctx)| < n
    ensures Maps(np, rows, ctx) == Maps(np, rows[..n], ctx)
    decreases |rows| - n
  {
    hide PatternProps;
    if n == |rows| {
      assert rows[..n] == rows;
    } else {
      assert Init(rows[..n + 1]) == rows[..n];
      MapsPrefix(np, rows, ctx, n + 1);
    }
  }

  lemma FoundGrows(g: Graph, labels: seq<string>, maps: seq<Props>, found: seq<seq<NodeId>>, props: Props, ids: seq<NodeId>)
    requires AllFound(g, labels, maps, found) && Finds(Merged(g, labels, maps, found), labels, props, ids)
    ensures AllFound(g, labels, maps + [props], found + [ids])
    ensures Merged(g, labels, maps + [props], found + [ids]) == RowMerged(Merged(g, labels, maps, found), labels, props, ids)
  {
    hide Finds;
    var (ms, fs) := (maps + [props], found + [ids]);
    assert Init(ms) == maps && Init(fs) == found;
    forall i | 0 <= i < |ms| ensures Finds(Merged(g, labels, ms[..i], fs[..i]), labels, ms[i], fs[i]) {
      if i < |maps| {
        assert ms[..i] == maps[..i] && fs[..i] == found[..i];
      } else {
        assert ms[..i] == maps && fs[..i] == found;
      }
    }
  }

  // Find, or create: one row of the batch.
  method MergeRow(storage: MemoryStorage, rec: Record, np: NodePattern, props: Props)
    returns (rows: seq<Record>, ghost ids: seq<NodeId>)
    requires storage.Valid()
    modifies storage
    ensures storage.Valid()
    ensures Finds(old(storage.View()), np.labels, props, ids)
    ensures storage.View() == RowMerged(old(storage.View()), np.labels, props, ids)
    ensures MergeRows(old(storage.View()), rec, np, props, ids, rows)
  {
    hide MemoryStorage.Valid, Finds, HasPropsByKey, NoZero;
    var existing := storage.FindNodes(np.labels, props);
    ids := existing;
    FindsMeans(storage.View(), np.labels, props, existing);
    if existing == [] {
      var id := storage.CreateNode(np.labels, props);
      rows := [rec[MergeVariable(np) := NodeVal(storage.nodes[id])]];
    } else {
      rows := [];
      assert forall j :: 0 <= j < |existing| ==> existing[j] in existing;
      for j := 0 to |existing|
        invariant rows == BoundRows(storage.View(), rec, MergeVariable(np), existing[..j])
      {
        rows := rows + [rec[MergeVariable(np) := NodeVal(storage.nodes[existing[j]])]];
      }
      assert existing[..|existing|] == existing;
    }
  }

  // The rows of a batch, each against the graph the ones before it left.
  ghost function AllMergeRows(g: Graph, np: NodePattern, recs: seq<Record>, maps: seq<Props>, found: seq<seq<NodeId>>,
                              blocks: seq<seq<Record>>): bool {
    && |found| == |maps| == |blocks| <= |recs|
    && forall i :: 0 <= i < |maps| ==>
         MergeRows(Merged(g, np.labels, maps[..i], found[..i]), recs[i], np, maps[i], found[i], blocks[i])
  }

  lemma RowsGrow(g: Graph, np: NodePattern, recs: seq<Record>, maps: seq<Props>, found: seq<seq<NodeId>>,
                 blocks: seq<seq<Record>>, props: Props, ids: seq<NodeId>, rows: seq<Record>)
    requires AllMergeRows(g, np, recs, maps, found, blocks) && |maps| < |recs|
    requires MergeRows(Merged(g, np.labels, maps, found), recs[|maps|], np, props, ids, rows)
    ensures AllMergeRows(g, np, recs, maps + [props], found + [ids], blocks + [rows])
  {
    hide MergeRows;
    var (ms, fs, bs) := (maps + [props], found + [ids], blocks + [rows]);
    forall i | 0 <= i < |ms|
      ensures MergeRows(Merged(g, np.labels, ms[..i], fs[..i]), recs[i], np, ms[i], fs[i], bs[i])
    {
      if i < |maps| {
        assert ms[..i] == maps[..i] && fs[..i] == found[..i];
      } else {
        assert ms[..i] == maps && fs[..i] == found;
      }
    }
  }

  // The row holds the stored node under the pattern's name, or a name of its
  // own when the pattern has none; the other columns are unchanged.
  ghost predicate ShowsNode(h: Graph, rec: Record, np: NodePattern, row: Record, id: NodeId) {
    var v := if np.variable.Some? then np.variable.value else "_merge_node";
    id in h.nodes && v in row && row[v] == NodeVal(h.nodes[id]) && SameBut(rec, row, {v})
  }

  // One row for each node found, in the order found, or one for the node made
  // with the labels and properties asked for.
  ghost predicate BlockShows(h: Graph, rec: Record, np: NodePattern, props: Props, ids: seq<NodeId>, block: seq<Record>) {
    if ids == [] then
      |block| == 1 && exists id :: ShowsNode(h, rec, np, block[0], id) && h.nodes[id].labels == np.labels && h.nodes[id].props == props
    else |block| == |ids| && forall j :: 0 <= j < |ids| ==> ShowsNode(h, rec, np, block[j], ids[j])
  }

  ghost predicate RowMergedTo(h: Graph, rec: Record, np: NodePattern, ctx: Context, ids: seq<NodeId>, block: seq<Record>) {
    exists props :: Resolves(EntriesOf(np.props), rec, ctx, props) && BlockShows(h, rec, np, props, ids, block)
  }

  lemma {:induction false} LaterExtends(g: Graph, labels: seq<string>, maps: seq<Props>, found: seq<seq<NodeId>>, n: nat)
    requires GraphOk(g) && |found| == |maps| && n <= |maps|
    ensures Extends(Merged(g, labels, maps[..n], found[..n]), Merged(g, labels, maps, found))
    decreases |maps| - n
  {
    if n == |maps| {
      assert maps[..n] == maps && found[..n] == found;
    } else {
      hide GraphOk;
      var (ms, fs) := (maps[..n + 1], found[..n + 1]);
      assert Init(ms) == maps[..n] && Init(fs) == found[..n];
      MergedExtends(g, labels, maps[..n], found[..n]);
      RowExtends(Merged(g, labels, maps[..n], found[..n]), labels, maps[n], found[n]);
      LaterExtends(g, labels, maps, found, n + 1);
    }
  }

  lemma BlockMeans(g: Graph, np: NodePattern, recs: seq<Record>, maps: seq<Props>, found: seq<seq<NodeId>>,
                   blocks: seq<seq<Record>>, i: nat)
    requires GraphOk(g) && AllMergeRows(g, np, recs, maps, found, blocks) && i < |maps|
    ensures BlockShows(Merged(g, np.labels, maps, found), recs[i], np, maps[i], found[i], blocks[i])
  {
    hide GraphOk, Merged, Extends, MergeRows, BlockShows;
    var labels := np.labels;
    var (before, after, h) := (Merged(g, labels, maps[..i], found[..i]), Merged(g, labels, maps[..i + 1], found[..i + 1]),
                               Merged(g, labels, maps, found));
    LaterExtends(g, labels, maps, found, i);
    LaterExtends(g, labels, maps, found, i + 1);
    assert Init(maps[..i + 1]) == maps[..i] && Init(found[..i + 1]) == found[..i];
    MergedSplit(g, labels, maps[..i + 1], found[..i + 1]);
    RowsStillShow(before, after, h, recs[i], np, maps[i], found[i], blocks[i]);
  }

  lemma RowsStillShow(before: Graph, after: Graph, h: Graph, rec: Record, np: NodePattern, props: Props, ids: seq<NodeId>,
                      block: seq<Record>)
    requires Extends(before, h) && Extends(after, h) && after == RowMerged(before, np.labels, props, ids)
    requires MergeRows(before, rec, np, props, ids, block)
    ensures BlockShows(h, rec, np, props, ids, block)
  {
    if ids == [] {
      var id := before.nextNode;
      assert after.nodes[id] == Node(id, np.labels, props);
      assert ShowsNode(h, rec, np, block[0], id);
    }
  }

  lemma BlocksMean(g: Graph, np: NodePattern, recs: seq<Record>, ctx: Context, found: seq<seq<NodeId>>, blocks: seq<seq<Record>>)
    requires GraphOk(g) && AllMergeRows(g, np, recs, Maps(np, recs, ctx), found, blocks)
    ensures |blocks| == |found| == |Maps(np, recs, ctx)|
    ensures forall i :: 0 <= i < |found| ==>
              RowMergedTo(Merged(g, np.labels, Maps(np, recs, ctx), found), recs[i], np, ctx, found[i], blocks[i])
  {
    hide GraphOk, Resolves, BlockShows, MergeRows;
    var maps := Maps(np, recs, ctx);
    forall i | 0 <= i < |found| ensures RowMergedTo(Merged(g, np.labels, maps, found), recs[i], np, ctx, found[i], blocks[i]) {
      BlockMeans(g, np, recs, maps, found, blocks, i);
      ResolvedMeans(EntriesOf(np.props), recs[i], ctx);
    }
  }

  // The whole batch; on an error what was created before it stays.
  method ExecuteMergeNode(storage: MemoryStorage, inputRows: seq<Record>, np: NodePattern, ctx: Context)
    returns (r: Option<seq<Record>>, ghost found: seq<seq<NodeId>>)
    requires storage.Valid()
    modifies storage
    ensures storage.Valid()
    ensures var maps := Maps(np, BaseRows(inputRows), ctx);
            && AllFound(old(storage.View()), np.labels, maps, found)
            && storage.View() == Merged(old(storage.View()), np.labels, maps, found)
            && ((forall i :: 0 <= i < |maps| ==> AllExact(maps[i])) ==>
                  storage.View() == NodesAdded(old(storage.View()), np.labels, NewMaps(old(storage.View()), np.labels, maps)))
            && (r.Some? <==> |maps| == |BaseRows(inputRows)|)
            && (r.Some? ==> exists blocks ::
                  AllMergeRows(old(storage.View()), np, BaseRows(inputRows), maps, found, blocks) && r.value == Flatten(blocks))
    ensures r.Some? ==>
              var rows := if inputRows == [] then [map[]] else inputRows;
              exists blocks: seq<seq<Record>> ::
                && |blocks| == |found| == |rows| && r.value == Flatten(blocks)
                && forall i :: 0 <= i < |rows| ==> RowMergedTo(storage.View(), rows[i], np, ctx, found[i], blocks[i])
  {
    hide MemoryStorage.Valid, Finds, MergeRows, RowMergedTo, PatternProps, RowMerged, NewMaps, NodesAdded, AllExact;
    var rows := BaseRows(inputRows);
    ghost var g := storage.View();
    StorageIsOk(storage);
    ghost var maps: seq<Props> := [];
    ghost var blocks: seq<seq<Record>> := [];
    found := [];
    var result: seq<Record> := [];
    for i := 0 to |rows|
      invariant storage.Valid()
      invariant |maps| == i && maps == Maps(np, rows[..i], ctx)
      invariant AllFound(g, np.labels, maps, found) && storage.View() == Merged(g, np.labels, maps, found)
      invariant AllMergeRows(g, np, rows, maps, found, blocks) && result == Flatten(blocks)
    {
      assert Init(rows[..i + 1]) == rows[..i] && Last(rows[..i + 1]) == rows[i];
      var props := ResolveProperties(np.props, rows[i], ctx);
      if props.None? {
        MapsStop(np, rows, ctx, i);
        AddedWhenExact(g, np, rows, ctx, found);
        return None, found;
      }
      var more; ghost var ids;
      more, ids := MergeRow(storage, rows[i], np, props.value);
      FoundGrows(g, np.labels, maps, found, props.value, ids);
      RowsGrow(g, np, rows, maps, found, blocks, props.value, ids, more);
      assert Init(blocks + [more]) == blocks;
      maps, found, blocks := maps + [props.value], found + [ids], blocks + [more];
      result := result + more;
    }
    assert rows[..|rows|] == rows;
    AddedWhenExact(g, np, rows, ctx, found);
    BlocksMean(g, np, rows, ctx, found, blocks);
    r := Some(result);
  }

  lemma AddedWhenExact(g: Graph, np: NodePattern, rows: seq<Record>, ctx: Context, found: seq<seq<NodeId>>)
    requires GraphOk(g) && AllFound(g, np.labels, Maps(np, rows, ctx), found)
    ensures var maps := Maps(np, rows, ctx);
            (forall i :: 0 <= i < |maps| ==> AllExact(maps[i])) ==>
              Merged(g, np.labels, maps, found) == NodesAdded(g, np.labels, NewMaps(g, np.labels, maps))
  {
    hide *;
    if forall i :: 0 <= i < |Maps(np, rows, ctx)| ==> AllExact(Maps(np, rows, ctx)[i]) {
      OneNodePerNewRowMap(g, np, rows, ctx, found);
    }
  }

  // --- Exactly one node per new map ---

  // The maps that no node of `g` fits, by first occurrence.
  ghost function NewMaps(g: Graph, labels: seq<string>, maps: seq<Props>): seq<Props> {
    if maps == [] then []
    else NewMaps(g, labels, Init(maps)) + if FindSet(g, labels, Last(maps)) == {} && Last(maps) !in Init(maps) then [Last(maps)] else []
  }

  lemma {:induction false} NewMapsAre(g: Graph, labels: seq<string>, maps: seq<Props>)
    ensures NoDup(NewMaps(g, labels, maps))
    ensures forall m :: m in NewMaps(g, labels, maps) <==> m in maps && FindSet(g, labels, m) == {}
  {
    hide FindSet;
    if maps != [] {
      NewMapsAre(g, labels, Init(maps));
      assert forall m :: m in maps <==> m in Init(maps) || m == Last(maps);
    }
  }

  function NodesAdded(g: Graph, labels: seq<string>, maps: seq<Props>): Graph {
    if maps == [] then g else AddNode(NodesAdded(g, labels, Init(maps)), labels, Last(maps))
  }

  // A node is new in `NodesAdded` exactly when it was added for one of the maps.
  lemma {:induction false} AddedNodesAre(g: Graph, labels: seq<string>, maps: seq<Props>)
    requires GraphOk(g)
    ensures GraphOk(NodesAdded(g, labels, maps))
    ensures forall i :: i in NodesAdded(g, labels, maps).nodes <==> i in g.nodes || g.nextNode <= i < g.nextNode + |maps|
    ensures forall i :: i in g.nodes ==> NodesAdded(g, labels, maps).nodes[i] == g.nodes[i]
    ensures forall k :: 0 <= k < |maps| ==> NodesAdded(g, labels, maps).nodes[g.nextNode + k] == Node(g.nextNode + k, labels, maps[k])
    ensures NodesAdded(g, labels, maps).nextNode == g.nextNode + |maps|
    ensures NodesAdded(g, labels, maps).edges == g.edges && NodesAdded(g, labels, maps).nextEdge == g.nextEdge
  {
    if maps != [] {
      AddedNodesAre(g, labels, Init(maps));
    }
  }

  // Exact maps over the same keys fit each other only when they are equal.
  lemma FitMeansEqual(a: Props, b: Props)
    requires a.Keys == b.Keys && AllExact(b)
    ensures HasProps(a, b) <==> a == b
  {
    PropsAgreeWhenExact(a, b);
  }

  lemma FindAmongAdded(g: Graph, labels: seq<string>, added: seq<Props>, m: Props)
    requires GraphOk(g) && AllExact(m) && forall i :: 0 <= i < |added| ==> added[i].Keys == m.Keys
    ensures FindSet(NodesAdded(g, labels, added), labels, m) == {} <==> FindSet(g, labels, m) == {} && m !in added
  {
    var h := NodesAdded(g, labels, added);
    AddedNodesAre(g, labels, added);
    hide NodesAdded, AllExact, HasProps;
    if FindSet(g, labels, m) != {} {
      var i :| i in FindSet(g, labels, m);
      assert i in FindSet(h, labels, m);
    }
    if m in added {
      var k :| 0 <= k < |added| && added[k] == m;
      FitMeansEqual(added[k], m);
      assert g.nextNode + k in FindSet(h, labels, m);
    }
    if FindSet(h, labels, m) != {} {
      var i :| i in FindSet(h, labels, m);
      if i in g.nodes {
        assert i in FindSet(g, labels, m);
      } else {
        FitMeansEqual(added[i - g.nextNode], m);
      }
    }
  }

  // A batch of exact maps over the same keys adds exactly one node for each
  // distinct map that no node fitted before, in order of first occurrence.
  lemma {:induction false} OneNodePerNewMap(g: Graph, labels: seq<string>, maps: seq<Props>, found: seq<seq<NodeId>>, keys: set<string>)
    requires GraphOk(g) && AllFound(g, labels, maps, found)
    requires forall i :: 0 <= i < |maps| ==> AllExact(maps[i]) && maps[i].Keys == keys
    ensures Merged(g, labels, maps, found) == NodesAdded(g, labels, NewMaps(g, labels, maps))
    decreases |maps|
  {
    if maps == [] {
      assert NewMaps(g, labels, maps) == [];
    } else {
      var (ms, fs, m) := (Init(maps), Init(found), Last(maps));
      var added := NewMaps(g, labels, ms);
      FoundPrefix(g, labels, maps, found);
      OneNodePerNewMap(g, labels, ms, fs, keys);
      MergedStep(g, labels, maps, found);
      NewMapsAre(g, labels, ms);
      hide FindSet, Finds, AllFound, Merged, NewMaps, NodesAdded, AllExact;
      forall i | 0 <= i < |added| ensures added[i].Keys == m.Keys {
        assert added[i] in added;
      }
      FindAmongAdded(g, labels, added, m);
      FoundWhenExact(Merged(g, labels, ms, fs), labels, m, Last(found));
      assert m in added <==> m in ms && FindSet(g, labels, m) == {};
    }
  }

  lemma MergedStep(g: Graph, labels: seq<string>, maps: seq<Props>, found: seq<seq<NodeId>>)
    requires |found| == |maps| && maps != []
    ensures Merged(g, labels, maps, found) ==
            RowMerged(Merged(g, labels, Init(maps), Init(found)), labels, Last(maps), Last(found))
    ensures var added := NewMaps(g, labels, Init(maps));
            NewMaps(g, labels, maps) ==
            if FindSet(g, labels, Last(maps)) == {} && Last(maps) !in Init(maps) then added + [Last(maps)] else added
    ensures forall added: seq<Props> {:trigger NodesAdded(g, labels, added)} ::
              NodesAdded(g, labels, added + [Last(maps)]) == AddNode(NodesAdded(g, labels, added), labels, Last(maps))
  {
    hide FindSet;
    forall added: seq<Props>
      ensures NodesAdded(g, labels, added + [Last(maps)]) == AddNode(NodesAdded(g, labels, added), labels, Last(maps))
    {
      assert Init(added + [Last(maps)]) == added;
    }
  }

  lemma FoundWhenExact(g: Graph, labels: seq<string>, m: Props, ids: seq<NodeId>)
    requires Finds(g, labels, m, ids) && AllExact(m)
    ensures ids == [] <==> FindSet(g, labels, m) == {}
  {
    NonEmptyHasMember(ids);
    FindsMeans(g, labels, m, ids);
    assert Enumerates(ids, FindSet(g, labels, m));
    if FindSet(g, labels, m) != {} {
      var i :| i in FindSet(g, labels, m);
      assert i in ids;
    }
  }

  lemma FoundPrefix(g: Graph, labels: seq<string>, maps: seq<Props>, found: seq<seq<NodeId>>)
    requires AllFound(g, labels, maps, found) && maps != []
    ensures AllFound(g, labels, Init(maps), Init(found))
    ensures Finds(Merged(g, labels, Init(maps), Init(found)), labels, Last(maps), Last(found))
  {
    hide Finds;
    var (ms, fs) := (Init(maps), Init(found));
    assert maps[..|ms|] == ms && found[..|ms|] == fs;
    forall i | 0 <= i < |ms| ensures Finds(Merged(g, labels, ms[..i], fs[..i]), labels, ms[i], fs[i]) {
      assert ms[..i] == maps[..i] && fs[..i] == found[..i];
    }
  }

  function KeysIn(inline: InlineProps): set<string> {
    set i | 0 <= i < |inline| :: inline[i].0
  }

  lemma {:induction false} ResolvedKeys(inline: InlineProps, rec: Record, ctx: Context, acc: Props)
    requires Resolved(inline, rec, ctx, acc).Some?
    ensures Resolved(inline, rec, ctx, acc).value.Keys == acc.Keys + KeysIn(inline)
    decreases |inline|
  {
    if inline != [] {
      var acc2 := acc[inline[0].0 := AsScalar(Eval(inline[0].1, rec, ctx).value).value];
      ResolvedKeys(inline[1..], rec, ctx, acc2);
      assert KeysIn(inline) == {inline[0].0} + KeysIn(inline[1..]) by {
        assert inline[0].0 in KeysIn(inline);
        forall i | 0 <= i < |inline[1..]| ensures inline[1..][i].0 in KeysIn(inline) { assert inline[i + 1] == inline[1..][i]; }
        forall i | 0 < i < |inline| ensures inline[i].0 in KeysIn(inline[1..]) { assert inline[1..][i - 1] == inline[i]; }
      }
    }
  }

  // The same for the maps one pattern gives over a batch of rows: they all have
  // the pattern's keys.
  lemma OneNodePerNewRowMap(g: Graph, np: NodePattern, rows: seq<Record>, ctx: Context, found: seq<seq<NodeId>>)
    requires GraphOk(g) && AllFound(g, np.labels, Maps(np, rows, ctx), found)
    requires forall i :: 0 <= i < |Maps(np, rows, ctx)| ==> AllExact(Maps(np, rows, ctx)[i])
    ensures Merged(g, np.labels, Maps(np, rows, ctx), found) == NodesAdded(g, np.labels, NewMaps(g, np.labels, Maps(np, rows, ctx)))
  {
    hide Finds, GraphOk, AllFound, Maps, Merged, NodesAdded, NewMaps;
    var (maps, keys) := (Maps(np, rows, ctx), KeysIn(Inline(EntriesOf(np.props))));
    forall i | 0 <= i < |maps| ensures maps[i].Keys == keys {
      ResolvedKeys(Inline(EntriesOf(np.props)), rows[i], ctx, map[]);
    }
    OneNodePerNewMap(g, np.labels, maps, found, keys);
  }

  // --- Running the batch again ---

  // `h` is `g` with nodes added.
  ghost predicate Extends(g: Graph, h: Graph) {
    forall i :: i in g.nodes ==> i in h.nodes && h.nodes[i] == g.nodes[i]
  }

  lemma {:induction false} MergedExtends(g: Graph, labels: seq<string>, maps: seq<Props>, found: seq<seq<NodeId>>)
    requires GraphOk(g) && |found| == |maps|
    ensures GraphOk(Merged(g, labels, maps, found)) && Extends(g, Merged(g, labels, maps, found))
    decreases |maps|
  {
    if maps != [] {
      MergedExtends(g, labels, Init(maps), Init(found));
    }
  }

  lemma RowExtends(g: Graph, labels: seq<string>, props: Props, ids: seq<NodeId>)
    requires GraphOk(g)
    ensures Extends(g, RowMerged(g, labels, props, ids))
  {
  }

  // After the batch some node holds each map that has no NaN and no zero.
  lemma {:induction false} EveryMapIsHeld(g: Graph, labels: seq<string>, maps: seq<Props>, found: seq<seq<NodeId>>, k: nat)
    requires GraphOk(g) && AllFound(g, labels, maps, found)
    requires k < |maps| && AllExact(maps[k])
    ensures FindSet(Merged(g, labels, maps, found), labels, maps[k]) != {}
    decreases |maps|
  {
    hide FindSet, Finds, GraphOk, AllFound, AllExact, RowMerged, Extends, Merged;
    FoundLength(g, labels, maps, found);
    var (ms, fs) := (Init(maps), Init(found));
    var before := Merged(g, labels, ms, fs);
    MergedSplit(g, labels, maps, found);
    FoundPrefix(g, labels, maps, found);
    MergedExtends(g, labels, ms, fs);
    if k < |ms| {
      EveryMapIsHeld(g, labels, ms, fs, k);
      RowExtends(before, labels, Last(maps), Last(found));
      StaysHeld(before, Merged(g, labels, maps, found), labels, maps[k]);
    } else {
      RowIsHeld(before, labels, maps[k], found[k]);
    }
  }

  lemma MergedSplit(g: Graph, labels: seq<string>, maps: seq<Props>, found: seq<seq<NodeId>>)
    requires |found| == |maps| && maps != []
    ensures Merged(g, labels, maps, found) ==
            RowMerged(Merged(g, labels, Init(maps), Init(found)), labels, Last(maps), Last(found))
  {
  }

  lemma StaysHeld(g: Graph, h: Graph, labels: seq<string>, m: Props)
    requires Extends(g, h) && FindSet(g, labels, m) != {}
    ensures FindSet(h, labels, m) != {}
  {
    var i :| i in FindSet(g, labels, m);
    assert i in FindSet(h, labels, m);
  }

  lemma RowIsHeld(g: Graph, labels: seq<string>, m: Props, ids: seq<NodeId>)
    requires GraphOk(g) && Finds(g, labels, m, ids) && AllExact(m)
    ensures FindSet(RowMerged(g, labels, m, ids), labels, m) != {}
  {
    FoundWhenExact(g, labels, m, ids);
    if ids == [] {
      FitMeansEqual(m, m);
      assert g.nextNode in FindSet(AddNode(g, labels, m), labels, m);
    }
  }

  lemma NaNIsNeverFound(g: Graph, labels: seq<string>, m: Props, ids: seq<NodeId>)
    requires Finds(g, labels, m, ids) && !NoNaN(m)
    ensures ids == []
  {
    NaNFitsNothing(g, labels, m);
    FindsMeans(g, labels, m, ids);
    NonEmptyHasMember(ids);
  }

  // How many nodes a batch creates.
  function Creations(found: seq<seq<NodeId>>): nat {
    if found == [] then 0 else Creations(Init(found)) + if Last(found) == [] then 1 else 0
  }

  lemma {:induction false} CreationsCount(g: Graph, labels: seq<string>, maps: seq<Props>, found: seq<seq<NodeId>>)
    requires |found| == |maps|
    ensures Merged(g, labels, maps, found).nextNode == g.nextNode + Creations(found)
    ensures Creations(found) == 0 ==> Merged(g, labels, maps, found) == g
    ensures Creations(found) == 0 <==> forall i :: 0 <= i < |found| ==> found[i] != []
    decreases |maps|
  {
    if maps != [] {
      CreationsCount(g, labels, Init(maps), Init(found));
    }
  }

  // Run again on the graph it left, a batch without zero floats creates
  // nothing exactly when it has no NaN.
  lemma RerunCreatesNothing(g: Graph, labels: seq<string>, maps: seq<Props>, found: seq<seq<NodeId>>, again: seq<seq<NodeId>>)
    requires GraphOk(g) && AllFound(g, labels, maps, found)
    requires AllFound(Merged(g, labels, maps, found), labels, maps, again)
    requires forall i :: 0 <= i < |maps| ==> NoZero(maps[i])
    ensures (forall i :: 0 <= i < |maps| ==> NoNaN(maps[i])) <==>
              Merged(Merged(g, labels, maps, found), labels, maps, again) == Merged(g, labels, maps, found)
  {
    hide Finds, FindSet;
    var h := Merged(g, labels, maps, found);
    MergedExtends(g, labels, maps, found);
    CreationsCount(h, labels, maps, again);
    if forall i :: 0 <= i < |maps| ==> NoNaN(maps[i]) {
      forall i | 0 <= i < |again| ensures again[i] != [] {
        EveryMapIsHeld(g, labels, maps, found, i);
        HeldIsFound(h, labels, maps, again, i);
      }
    } else {
      var i :| 0 <= i < |maps| && !NoNaN(maps[i]);
      NaNIsNeverFound(Merged(h, labels, maps[..i], again[..i]), labels, maps[i], again[i]);
    }
  }

  lemma HeldIsFound(h: Graph, labels: seq<string>, maps: seq<Props>, again: seq<seq<NodeId>>, i: nat)
    requires GraphOk(h) && AllFound(h, labels, maps, again) && i < |maps|
    requires AllExact(maps[i]) && FindSet(h, labels, maps[i]) != {}
    ensures again[i] != []
  {
    hide Finds;
    var now := Merged(h, labels, maps[..i], again[..i]);
    MergedExtends(h, labels, maps[..i], again[..i]);
    var n :| n in FindSet(h, labels, maps[i]);
    assert n in FindSet(now, labels, maps[i]);
    FoundWhenExact(now, labels, maps[i], again[i]);
  }

  // --- Zero floats included ---

  // The rows after the given ones can be answered somehow.
  lemma {:induction false} SomeAnswers(g: Graph, labels: seq<string>, maps: seq<Props>, n: nat, found: seq<seq<NodeId>>)
    returns (all: seq<seq<NodeId>>)
    requires n <= |maps| && AllFound(g, labels, maps[..n], found)
    ensures AllFound(g, labels, maps, all) && found <= all
    decreases |maps| - n
  {
    hide AllFound, Merged;
    if n == |maps| {
      assert maps[..n] == maps;
      all := found;
    } else {
      assert |found| == n by { FoundLength(g, labels, maps[..n], found); }
      var ids := SomeAnswer(Merged(g, labels, maps[..n], found), labels, maps[n]);
      FoundGrows(g, labels, maps[..n], found, maps[n], ids);
      assert maps[..n + 1] == maps[..n] + [maps[n]];
      all := SomeAnswers(g, labels, maps, n + 1, found + [ids]);
    }
  }

  lemma FoundLength(g: Graph, labels: seq<string>, maps: seq<Props>, found: seq<seq<NodeId>>)
    requires AllFound(g, labels, maps, found)
    ensures |found| == |maps|
  {
  }

  lemma {:induction false} NoneMissed(h: Graph, labels: seq<string>, maps: seq<Props>, found: seq<seq<NodeId>>)
    requires AllFound(h, labels, maps, found)
    requires forall i :: 0 <= i < |maps| ==> !Finds(h, labels, maps[i], [])
    ensures Merged(h, labels, maps, found) == h
    decreases |maps|
  {
    if maps != [] {
      hide Finds;
      FoundPrefix(h, labels, maps, found);
      NoneMissed(h, labels, Init(maps), Init(found));
      assert !Finds(h, labels, maps[|maps| - 1], []);
    }
  }

  lemma {:induction false} MissedGrows(h: Graph, labels: seq<string>, maps: seq<Props>, found: seq<seq<NodeId>>, i: nat)
    requires |found| == |maps| && i < |maps| && found[i] == []
    ensures Merged(h, labels, maps, found) != h
  {
    CreationsCount(h, labels, maps, found);
  }

  // Whatever the maps and however ties fall, a batch creates nothing on `h`
  // exactly when none of its rows may be answered with nothing on `h`.
  lemma BatchCreatesNothing(h: Graph, labels: seq<string>, maps: seq<Props>)
    ensures (forall i :: 0 <= i < |maps| ==> !Finds(h, labels, maps[i], [])) <==>
              forall found :: AllFound(h, labels, maps, found) ==> Merged(h, labels, maps, found) == h
  {
    hide Finds;
    if forall i :: 0 <= i < |maps| ==> !Finds(h, labels, maps[i], []) {
      forall found | AllFound(h, labels, maps, found) ensures Merged(h, labels, maps, found) == h {
        NoneMissed(h, labels, maps, found);
      }
    } else {
      var found := SomeMiss(h, labels, maps);
    }
  }

  // The first row that may miss does miss.
  lemma SomeMiss(h: Graph, labels: seq<string>, maps: seq<Props>) returns (found: seq<seq<NodeId>>)
    requires !(forall i :: 0 <= i < |maps| ==> !Finds(h, labels, maps[i], []))
    ensures AllFound(h, labels, maps, found) && Merged(h, labels, maps, found) != h
  {
    hide Finds, Merged, AllFound;
    var k := FirstMiss(h, labels, maps);
    NothingRun(h, labels);
    assert maps[..k][..0] == [];
    var before := SomeAnswers(h, labels, maps[..k], 0, []);
    NoneMissed(h, labels, maps[..k], before);
    FoundGrows(h, labels, maps[..k], before, maps[k], []);
    assert maps[..k + 1] == maps[..k] + [maps[k]];
    FoundLength(h, labels, maps[..k], before);
    found := SomeAnswers(h, labels, maps, k + 1, before + [[]]);
    FoundLength(h, labels, maps, found);
    assert found[k] == (before + [[]])[k];
    MissedGrows(h, labels, maps, found, k);
  }

  lemma NothingRun(h: Graph, labels: seq<string>)
    ensures AllFound(h, labels, [], [])
  {
  }

  lemma {:induction false} FirstMiss(h: Graph, labels: seq<string>, maps: seq<Props>) returns (k: nat)
    requires !(forall i :: 0 <= i < |maps| ==> !Finds(h, labels, maps[i], []))
    ensures k < |maps| && Finds(h, labels, maps[k], [])
    ensures forall i :: 0 <= i < k ==> !Finds(h, labels, maps[i], [])
    decreases |maps|
  {
    hide Finds;
    if forall i :: 0 <= i < |Init(maps)| ==> !Finds(h, labels, Init(maps)[i], []) {
      k := |maps| - 1;
      assert forall i :: 0 <= i < k ==> maps[i] == Init(maps)[i];
    } else {
      k := FirstMiss(h, labels, Init(maps));
      assert forall i :: 0 <= i <= k ==> maps[i] == Init(maps)[i];
    }
  }

  // Some node carries the labels and the very bits of the map.
  ghost predicate Carried(g: Graph, labels: seq<string>, m: Props) {
    exists i :: i in FindSet(g, labels, m) && HasPropsByKey(g.nodes[i].props, m)
  }

  lemma MissMeans(h: Graph, labels: seq<string>, m: Props)
    ensures !Finds(h, labels, m, []) <==> NoNaN(m) && (Carried(h, labels, m) || !Finds(h, labels, m, []))
  {
    hide Finds, FindSet;
    if !NoNaN(m) {
      var ids := SomeAnswer(h, labels, m);
      NaNIsNeverFound(h, labels, m, ids);
    }
    if Finds(h, labels, m, []) {
      FindsMeans(h, labels, m, []);
    }
  }

  // Any batch run again on the graph it left, zero floats included: it creates
  // nothing, however ties fall, exactly when no map has a NaN and every map
  // that no node carries bit for bit is equal to one the lookup cannot miss.
  lemma RerunIsExact(g: Graph, labels: seq<string>, maps: seq<Props>, found: seq<seq<NodeId>>)
    requires |found| == |maps|
    ensures var h := Merged(g, labels, maps, found);
            (forall i :: 0 <= i < |maps| ==>
               NoNaN(maps[i]) && (Carried(h, labels, maps[i]) || !Finds(h, labels, maps[i], []))) <==>
            (forall again :: AllFound(h, labels, maps, again) ==> Merged(h, labels, maps, again) == h)
  {
    hide *;
    var h := Merged(g, labels, maps, found);
    forall i | 0 <= i < |maps|
      ensures !Finds(h, labels, maps[i], []) <==> NoNaN(maps[i]) && (Carried(h, labels, maps[i]) || !Finds(h, labels, maps[i], []))
    {
      MissMeans(h, labels, maps[i]);
    }
    BatchCreatesNothing(h, labels, maps);
  }
}
