// Distances in the abstract graph and the walks that realise them.

module ShortestWalks {
  import opened GraphTypes
  import opened Sequences
  import opened AbstractGraph
  import opened Trails

  // `v` can be reached in at most `k` steps.
  ghost predicate Near(g: Graph, q: Search, v: NodeId, k: nat) {
    exists w: Trail :: IsWalk(g, q, w) && |w| <= k && EndOf(g, q, w) == v
  }

  // The graph distance from the start to `v`, under the direction and type
  // filters of the search, is `k`.
  ghost predicate AtDistance(g: Graph, q: Search, v: NodeId, k: nat) {
    Near(g, q, v, k) && (k > 0 ==> !Near(g, q, v, k - 1))
  }

  // A walk no longer than any walk to the same node.
  ghost predicate IsShortest(g: Graph, q: Search, w: Trail) {
    IsWalk(g, q, w) && (w != [] ==> !Near(g, q, EndOf(g, q, w), |w| - 1))
  }

  lemma NearWitness(g: Graph, q: Search, w: Trail, k: nat)
    requires IsWalk(g, q, w) && |w| <= k
    ensures Near(g, q, EndOf(g, q, w), k)
  {
  }

  lemma NearMonotone(g: Graph, q: Search, v: NodeId, j: nat, k: nat)
    requires Near(g, q, v, j) && j <= k
    ensures Near(g, q, v, k)
  {
  }

  lemma DistanceUnique(g: Graph, q: Search, v: NodeId, j: nat, k: nat)
    requires AtDistance(g, q, v, j) && AtDistance(g, q, v, k)
    ensures j == k
  {
  }

  lemma ShortestDistance(g: Graph, q: Search, w: Trail)
    requires IsShortest(g, q, w)
    ensures AtDistance(g, q, EndOf(g, q, w), |w|)
  {
    NearWitness(g, q, w, |w|);
  }

  lemma DistanceWalk(g: Graph, q: Search, v: NodeId, k: nat) returns (w: Trail)
    requires AtDistance(g, q, v, k)
    ensures IsShortest(g, q, w) && |w| == k && EndOf(g, q, w) == v
  {
    w :| IsWalk(g, q, w) && |w| <= k && EndOf(g, q, w) == v;
    assert |w| == k;
  }

  // The step after a walk depends only on where the walk ends.
  lemma StepFromSameEnd(g: Graph, q: Search, w: Trail, x: Trail, e: EdgeId)
    requires IsWalk(g, q, x) && EndOf(g, q, w) == EndOf(g, q, x) && StepOk(g, q, w, e)
    ensures IsWalk(g, q, x + [e]) && EndOf(g, q, x + [e]) == Far(q.dir, g.edges[e], EndOf(g, q, w))
  {
    assert Init(x + [e]) == x && Last(x + [e]) == e;
  }

  lemma StepEnd(g: Graph, q: Search, w: Trail, e: EdgeId)
    requires e in g.edges
    ensures EndOf(g, q, w + [e]) == Far(q.dir, g.edges[e], EndOf(g, q, w))
    ensures IsWalk(g, q, w + [e]) <==> IsWalk(g, q, w) && StepOk(g, q, w, e)
  {
    assert Init(w + [e]) == w && Last(w + [e]) == e;
  }

  lemma PrefixShortest(g: Graph, q: Search, w: Trail)
    requires IsShortest(g, q, w) && w != []
    ensures IsShortest(g, q, Init(w))
  {
    var p, e := Init(w), Last(w);
    if p != [] && Near(g, q, EndOf(g, q, p), |p| - 1) {
      var x :| IsWalk(g, q, x) && |x| <= |p| - 1 && EndOf(g, q, x) == EndOf(g, q, p);
      StepFromSameEnd(g, q, p, x, e);
      NearWitness(g, q, x + [e], |w| - 1);
    }
  }

  // A node at distance k + 1 is one step beyond any node at distance k that
  // precedes it on a shortest walk.
  lemma LastStep(g: Graph, q: Search, v: NodeId, k: nat) returns (u: NodeId, w: Trail)
    requires AtDistance(g, q, v, k + 1)
    ensures IsShortest(g, q, w) && |w| == k + 1 && EndOf(g, q, w) == v
    ensures AtDistance(g, q, u, k) && u == EndOf(g, q, Init(w)) && StepOk(g, q, Init(w), Last(w))
  {
    w := DistanceWalk(g, q, v, k + 1);
    u := EndOf(g, q, Init(w));
    PrefixShortest(g, q, w);
    ShortestDistance(g, q, Init(w));
  }

  // When no node is at distance k, none is farther.
  lemma {:induction false} NothingBeyond(g: Graph, q: Search, k: nat, v: NodeId, m: nat)
    requires forall u :: !AtDistance(g, q, u, k)
    requires k <= m
    ensures !AtDistance(g, q, v, m)
    decreases m
  {
    if k < m && AtDistance(g, q, v, m) {
      var u, w := LastStep(g, q, v, m - 1);
      NothingBeyond(g, q, k, u, m - 1);
    }
  }

  lemma {:induction false} PrefixIsWalk(g: Graph, q: Search, w: Trail, i: nat)
    requires IsWalk(g, q, w) && i <= |w|
    ensures IsWalk(g, q, w[..i])
    ensures i < |w| ==> StepOk(g, q, w[..i], w[i]) && EndOf(g, q, w[..i + 1]) == Far(q.dir, g.edges[w[i]], EndOf(g, q, w[..i]))
    decreases |w|
  {
    if i < |w| {
      if i + 1 == |w| {
        assert w[..i + 1] == w && w[..i] == Init(w);
      } else {
        PrefixIsWalk(g, q, Init(w), i);
        assert Init(w)[..i] == w[..i] && Init(w)[..i + 1] == w[..i + 1];
      }
    } else {
      assert w[..i] == w;
    }
  }

  // Retaking an edge of a walk leads only to nodes the walk has already
  // passed, so pruning visited nodes makes the repetition check redundant.
  lemma RepeatedEdgeIsNear(g: Graph, q: Search, w: Trail, e: EdgeId)
    requires IsWalk(g, q, w) && e in w && StepOk(g, q, w, e)
    ensures Near(g, q, Far(q.dir, g.edges[e], EndOf(g, q, w)), |w|)
  {
    var i :| 0 <= i < |w| && w[i] == e;
    PrefixIsWalk(g, q, w, i);
    PrefixIsWalk(g, q, w, i + 1);
    NearWitness(g, q, w[..i], |w|);
    NearWitness(g, q, w[..i + 1], |w|);
  }

  lemma {:induction false} ShortestHasNoRepeats(g: Graph, q: Search, w: Trail)
    requires IsShortest(g, q, w)
    ensures NoDup(w)
    decreases |w|
  {
    if w != [] {
      var p, e := Init(w), Last(w);
      PrefixShortest(g, q, w);
      ShortestHasNoRepeats(g, q, p);
      if e in p {
        RepeatedEdgeIsNear(g, q, p, e);
      }
      NoDupAppend(p, e);
      assert w == p + [e];
    }
  }

  // --- All shortest walks, level by level ---

  // `e` leads from the end of `w` to a node not reached within |w| steps.
  ghost predicate Advances(g: Graph, q: Search, w: Trail, e: EdgeId) {
    && e in g.edges && TypeOk(q.relTypes, g.edges[e].relType)
    && !Near(g, q, Far(q.dir, g.edges[e], EndOf(g, q, w)), |w|)
  }

  ghost function AdvanceOver(g: Graph, q: Search, w: Trail, ids: seq<EdgeId>): (r: seq<Trail>)
    ensures forall x :: x in r ==> x != [] && Init(x) == w
  {
    if ids == [] then []
    else if Advances(g, q, w, ids[0]) then [w + [ids[0]]] + AdvanceOver(g, q, w, ids[1..])
    else AdvanceOver(g, q, w, ids[1..])
  }

  ghost function Advance(g: Graph, q: Search, w: Trail): (r: seq<Trail>)
    ensures forall x :: x in r ==> x != [] && Init(x) == w
  {
    AdvanceOver(g, q, w, Candidates(g, q.dir, EndOf(g, q, w)))
  }

  ghost function AdvanceAll(g: Graph, q: Search, ws: seq<Trail>): (r: seq<Trail>)
    ensures forall x :: x in r ==> x != [] && Init(x) in ws
  {
    if ws == [] then [] else AdvanceAll(g, q, Init(ws)) + Advance(g, q, Last(ws))
  }

  // The shortest walks of length k in the order the search finds them.
  ghost function ShortLevel(g: Graph, q: Search, k: nat): seq<Trail> {
    if k == 0 then [[]] else AdvanceAll(g, q, ShortLevel(g, q, k - 1))
  }

  lemma {:induction false} AdvanceOverCount(g: Graph, q: Search, w: Trail, ids: seq<EdgeId>, e: EdgeId)
    ensures multiset(AdvanceOver(g, q, w, ids))[w + [e]] == if Advances(g, q, w, e) then multiset(ids)[e] else 0
    decreases |ids|
  {
    if ids != [] {
      assert ids == [ids[0]] + ids[1..];
      AdvanceOverCount(g, q, w, ids[1..], e);
      if ids[0] != e {
        assert (w + [ids[0]])[|w|] != (w + [e])[|w|];
      }
    }
  }

  // A self-loop never advances, so each extension is found once.
  lemma AdvanceCount(g: Graph, q: Search, w: Trail, e: EdgeId)
    requires IsWalk(g, q, w)
    ensures multiset(Advance(g, q, w))[w + [e]] == if StepOk(g, q, w, e) && Advances(g, q, w, e) then 1 else 0
  {
    AdvanceOverCount(g, q, w, Candidates(g, q.dir, EndOf(g, q, w)), e);
    CandidateCount(g, q.dir, EndOf(g, q, w), e);
    NearWitness(g, q, w, |w|);
  }

  lemma {:induction false} AdvanceAllCount(g: Graph, q: Search, ws: seq<Trail>, x: Trail)
    requires x != []
    ensures multiset(AdvanceAll(g, q, ws))[x] == Times(multiset(ws)[Init(x)], multiset(Advance(g, q, Init(x)))[x])
    decreases |ws|
  {
    var c := multiset(Advance(g, q, Init(x)))[x];
    if ws == [] {
      TimesZero(c);
    } else {
      hide Times, Advance;
      var p := Init(ws);
      AdvanceAllCount(g, q, p, x);
      SnocCount(ws, Init(x));
      AdvanceElsewhere(g, q, Last(ws), x);
      MultisetConcat(AdvanceAll(g, q, p), Advance(g, q, Last(ws)), x);
      TimesSucc(multiset(p)[Init(x)], c);
    }
  }

  lemma SnocCount(ws: seq<Trail>, x: Trail)
    requires ws != []
    ensures multiset(ws)[x] == multiset(Init(ws))[x] + if Last(ws) == x then 1 else 0
  {
    assert ws == Init(ws) + [Last(ws)];
  }

  lemma AdvanceElsewhere(g: Graph, q: Search, w: Trail, x: Trail)
    requires x != []
    ensures w != Init(x) ==> multiset(Advance(g, q, w))[x] == 0
  {
    assert w != Init(x) ==> x !in Advance(g, q, w);
  }

  lemma TimesSucc(a: nat, c: nat)
    ensures Times(a + 1, c) == Times(a, c) + c
  {
  }

  // Level k lists the shortest walks of length k, each exactly once.
  lemma {:induction false} LevelExact(g: Graph, q: Search, k: nat, w: Trail)
    ensures multiset(ShortLevel(g, q, k))[w] == if |w| == k && IsShortest(g, q, w) then 1 else 0
    decreases k
  {
    if k > 0 && w != [] {
      LevelExact(g, q, k - 1, Init(w));
      LevelStep(g, q, ShortLevel(g, q, k - 1), w);
    } else {
      assert k > 0 ==> w !in ShortLevel(g, q, k);
    }
  }

  lemma LevelStep(g: Graph, q: Search, ws: seq<Trail>, w: Trail)
    requires w != []
    requires multiset(ws)[Init(w)] <= 1
    requires multiset(ws)[Init(w)] == 1 ==> IsShortest(g, q, Init(w))
    ensures multiset(AdvanceAll(g, q, ws))[w] == if multiset(ws)[Init(w)] == 1 && IsShortest(g, q, w) then 1 else 0
    ensures IsShortest(g, q, w) ==> IsShortest(g, q, Init(w))
  {
    hide Times, Advance, AdvanceAll, IsShortest;
    AdvanceAllCount(g, q, ws, w);
    AdvanceFromShortest(g, q, w);
    var c := multiset(Advance(g, q, Init(w)))[w];
    TimesZero(c);
    TimesUnit(c);
  }

  lemma AdvanceFromShortest(g: Graph, q: Search, w: Trail)
    requires w != []
    ensures IsShortest(g, q, w) ==> IsShortest(g, q, Init(w))
    ensures IsShortest(g, q, Init(w)) ==>
              multiset(Advance(g, q, Init(w)))[w] == if IsShortest(g, q, w) then 1 else 0
  {
    ShortestStep(g, q, w);
    if IsShortest(g, q, Init(w)) {
      AdvanceCount(g, q, Init(w), Last(w));
      assert w == Init(w) + [Last(w)];
    }
  }

  lemma TimesUnit(a: nat)
    ensures Times(1, a) == a
  {
  }

  lemma ShortestStep(g: Graph, q: Search, w: Trail)
    requires w != []
    ensures IsShortest(g, q, w) <==>
            IsShortest(g, q, Init(w)) && StepOk(g, q, Init(w), Last(w)) && Advances(g, q, Init(w), Last(w))
  {
    assert w == Init(w) + [Last(w)];
    if IsShortest(g, q, w) {
      PrefixShortest(g, q, w);
    }
  }

  lemma LevelMembers(g: Graph, q: Search, k: nat)
    ensures NoDup(ShortLevel(g, q, k))
    ensures forall w :: w in ShortLevel(g, q, k) <==> |w| == k && IsShortest(g, q, w)
  {
    var ws := ShortLevel(g, q, k);
    forall w ensures w in ws <==> |w| == k && IsShortest(g, q, w) {
      LevelExact(g, q, k, w);
    }
    forall w | w in ws ensures multiset(ws)[w] == 1 {
      LevelExact(g, q, k, w);
    }
    MultisetNoDup(ws);
  }

  // --- The walks to one target ---

  ghost function Arriving(g: Graph, q: Search, target: NodeId, ws: seq<Trail>): (r: seq<Trail>)
    ensures forall w :: w in r <==> w in ws && EndOf(g, q, w) == target
  {
    if ws == [] then []
    else Arriving(g, q, target, Init(ws)) + if EndOf(g, q, Last(ws)) == target then [Last(ws)] else []
  }

  lemma {:induction false} ArrivingNoDup(g: Graph, q: Search, target: NodeId, ws: seq<Trail>)
    requires NoDup(ws)
    ensures NoDup(Arriving(g, q, target, ws))
    decreases |ws|
  {
    if ws != [] {
      ArrivingNoDup(g, q, target, Init(ws));
      assert Last(ws) !in Init(ws);
      NoDupAppend(Arriving(g, q, target, Init(ws)), Last(ws));
    }
  }

  // allShortestPaths: all walks of length k to the target when k is its
  // distance, each exactly once.
  lemma AllShortestExact(g: Graph, q: Search, target: NodeId, k: nat)
    requires AtDistance(g, q, target, k)
    ensures var ws := Arriving(g, q, target, ShortLevel(g, q, k));
            && ws != [] && NoDup(ws)
            && forall w :: w in ws <==> IsWalk(g, q, w) && |w| == k && EndOf(g, q, w) == target
  {
    LevelMembers(g, q, k);
    ArrivingNoDup(g, q, target, ShortLevel(g, q, k));
    var w := DistanceWalk(g, q, target, k);
    assert w in Arriving(g, q, target, ShortLevel(g, q, k));
  }
}
