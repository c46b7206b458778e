// Sequence and set facts shared by the storage, the searches and the executor.

module Sequences {

  ghost predicate StrictlySorted(s: seq<nat>) {
    forall i, j :: 0 <= i < j < |s| ==> s[i] < s[j]
  }

  ghost predicate NoDup<T>(s: seq<T>) {
    forall i, j :: 0 <= i < j < |s| ==> s[i] != s[j]
  }

  function Init<T>(s: seq<T>): seq<T>
    requires s != []
  {
    s[..|s| - 1]
  }

  function Last<T>(s: seq<T>): T
    requires s != []
  {
    s[|s| - 1]
  }

  function Flatten<T>(blocks: seq<seq<T>>): seq<T> {
    if blocks == [] then [] else Flatten(Init(blocks)) + Last(blocks)
  }

  // The blocks one after another, each as it is.
  lemma {:induction false} FlattenInOrder<T>(a: seq<seq<T>>, b: seq<seq<T>>)
    ensures Flatten(a + b) == Flatten(a) + Flatten(b)
    decreases |b|
  {
    if b == [] {
      assert a + b == a && Flatten(a) + [] == Flatten(a);
    } else {
      FlattenInOrder(a, Init(b));
      assert Init(a + b) == a + Init(b) && Last(a + b) == Last(b);
      assert Flatten(a + b) == Flatten(a) + Flatten(Init(b)) + Last(b);
    }
  }

  lemma FlattenOne<T>(block: seq<T>)
    ensures Flatten([block]) == block
  {
    assert Init([block]) == [];
  }

  lemma NonEmptyHasMember<T>(s: seq<T>)
    ensures s != [] ==> exists x :: x in s
  {
    if s != [] {
      assert s[0] in s;
    }
  }

  // `s` lists the set `c` in ascending order.
  ghost predicate Lists(s: seq<nat>, c: set<nat>) {
    StrictlySorted(s) && forall x :: x in s <==> x in c
  }

  // `s` enumerates the set `c` in some order, each element once.
  ghost predicate Enumerates<T(!new)>(s: seq<T>, c: set<T>) {
    NoDup(s) && forall x :: x in s <==> x in c
  }

  ghost function Min(c: set<nat>): (m: nat)
    requires c != {}
    ensures m in c && forall x :: x in c ==> m <= x
    decreases |c|
  {
    var x :| x in c;
    if c == {x} then x
    else
      var m := Min(c - {x});
      assert forall y :: y in c ==> y == x || y in c - {x};
      if m < x then m else x
  }

  // The ascending listing of a finite set of identifiers.
  ghost function SortedIds(c: set<nat>): (s: seq<nat>)
    ensures Lists(s, c)
    ensures |s| == |c|
    decreases |c|
  {
    if c == {} then [] else
      var m := Min(c);
      var rest := SortedIds(c - {m});
      assert forall x :: x in c <==> x == m || x in c - {m};
      [m] + rest
  }

  lemma TailLists(s: seq<nat>, c: set<nat>)
    requires Lists(s, c) && s != []
    ensures s[0] in c && Lists(s[1..], c - {s[0]})
    ensures forall x :: x in c ==> s[0] <= x
  {
    forall x ensures x in s[1..] <==> x in c - {s[0]} {
      if x in c - {s[0]} { assert x in s; }
    }
  }

  // An ascending listing is unique, so a list kept in step with a set is a
  // function of that set.
  lemma {:induction false} ListingIsUnique(s: seq<nat>, t: seq<nat>, c: set<nat>)
    requires Lists(s, c) && Lists(t, c)
    ensures s == t
    decreases |s|
  {
    EnumeratesSize(s, c);
    EnumeratesSize(t, c);
    if s != [] {
      TailLists(s, c);
      TailLists(t, c);
      ListingIsUnique(s[1..], t[1..], c - {s[0]});
      assert s == [s[0]] + s[1..] && t == [t[0]] + t[1..];
    }
  }

  lemma AppendLarger(s: seq<nat>, c: set<nat>, x: nat)
    requires Lists(s, c)
    requires forall y :: y in c ==> y < x
    ensures Lists(s + [x], c + {x})
  {
    forall i, j | 0 <= i < j < |s + [x]| ensures (s + [x])[i] < (s + [x])[j] {
      if j == |s| { assert s[i] in s; }
    }
  }

  // `part` holds the elements of `whole` at the given positions, in order.
  ghost predicate PickedAt<T>(part: seq<T>, whole: seq<T>, at: seq<nat>) {
    && StrictlySorted(at) && |part| == |at|
    && forall k :: 0 <= k < |at| ==> at[k] < |whole| && part[k] == whole[at[k]]
  }

  lemma PickOneMore<T>(part: seq<T>, whole: seq<T>, at: seq<nat>, x: T)
    requires PickedAt(part, whole, at)
    ensures PickedAt(part, whole + [x], at) && PickedAt(part + [x], whole + [x], at + [|whole|])
  {
    assert forall k :: 0 <= k < |at| ==> at[k] < |whole|;
  }

  // One more element in front: it may be picked or not, the others follow it.
  lemma PickOneEarlier<T>(part: seq<T>, whole: seq<T>, at: seq<nat>, x: T) returns (later: seq<nat>)
    requires PickedAt(part, whole, at)
    ensures PickedAt(part, [x] + whole, later) && PickedAt([x] + part, [x] + whole, [0] + later)
    ensures forall i :: i in later <==> i > 0 && i - 1 in at
  {
    later := Shifted(at);
    assert forall k :: 0 <= k < |at| ==> ([x] + whole)[later[k]] == whole[at[k]];
  }

  lemma Shifted(at: seq<nat>) returns (later: seq<nat>)
    ensures |later| == |at| && forall k :: 0 <= k < |at| ==> later[k] == at[k] + 1
    ensures forall i :: i in later <==> i > 0 && i - 1 in at
  {
    later := seq(|at|, k requires 0 <= k < |at| => at[k] + 1);
    forall i | i > 0 && i - 1 in at ensures i in later {
      var k :| 0 <= k < |at| && at[k] == i - 1;
      assert later[k] == i;
    }
  }

  // What `Vec::retain(|e| *e != x)` leaves.
  function Without<T(==,!new)>(s: seq<T>, x: T): (r: seq<T>)
    ensures |r| <= |s|
    ensures forall y :: y in r <==> y in s && y != x
  {
    if s == [] then []
    else if s[0] == x then Without(s[1..], x)
    else [s[0]] + Without(s[1..], x)
  }

  lemma {:induction false} WithoutLists(s: seq<nat>, c: set<nat>, x: nat)
    requires Lists(s, c)
    ensures Lists(Without(s, x), c - {x})
  {
    WithoutSorted(s, x);
  }

  lemma {:induction false} WithoutSorted(s: seq<nat>, x: nat)
    requires StrictlySorted(s)
    ensures StrictlySorted(Without(s, x))
  {
    if s != [] {
      WithoutSorted(s[1..], x);
      var r := Without(s[1..], x);
      assert forall k :: 0 <= k < |r| ==> r[k] in s[1..];
    }
  }

  lemma {:induction false} EnumeratesSize<T(!new)>(s: seq<T>, c: set<T>)
    requires Enumerates(s, c)
    ensures |s| == |c|
    decreases |s|
  {
    if s == [] {
      assert c == {};
    } else {
      var d := c - {s[0]};
      forall x ensures x in s[1..] <==> x in d {
        if x in d { assert x in s; }
      }
      EnumeratesSize(s[1..], d);
      assert c == d + {s[0]};
    }
  }

  lemma ListsEnumerates(s: seq<nat>, c: set<nat>)
    requires Lists(s, c)
    ensures Enumerates(s, c)
  {
  }

  // Multiplicity of `x` in a concatenation is the sum.
  lemma MultisetConcat<T>(a: seq<T>, b: seq<T>, x: T)
    ensures multiset(a + b)[x] == multiset(a)[x] + multiset(b)[x]
  {
  }

  lemma {:induction false} NoDupMultiset<T>(s: seq<T>, x: T)
    requires NoDup(s)
    ensures multiset(s)[x] == if x in s then 1 else 0
  {
    if s != [] {
      assert s == [s[0]] + s[1..];
      NoDupMultiset(s[1..], x);
      if s[0] == x {
        assert x !in s[1..];
      }
    }
  }

  lemma {:induction false} MultisetNoDup<T>(s: seq<T>)
    requires forall x :: x in s ==> multiset(s)[x] == 1
    ensures NoDup(s)
  {
    if s != [] {
      assert s == [s[0]] + s[1..];
      var t := s[1..];
      assert multiset(s)[s[0]] == 1 + multiset(t)[s[0]];
      forall x | x in t ensures multiset(t)[x] == 1 {
        assert x in s && x != s[0];
      }
      MultisetNoDup(t);
      forall i, j | 0 <= i < j < |s| ensures s[i] != s[j] {
        if i == 0 { assert s[j] == t[j - 1]; } else { assert s[i] == t[i - 1] && s[j] == t[j - 1]; }
      }
    }
  }

  function Reverse<T>(s: seq<T>): seq<T> {
    if s == [] then [] else Reverse(s[1..]) + [s[0]]
  }

  lemma {:induction false} ReverseAppend<T>(s: seq<T>, x: T)
    ensures Reverse(s + [x]) == [x] + Reverse(s)
  {
    if s != [] {
      assert (s + [x])[1..] == s[1..] + [x];
      ReverseAppend(s[1..], x);
    }
  }

  // Taking the last element of one sequence out of a permutation of it.
  lemma MultisetSplit<T>(s: seq<T>, i: nat)
    requires i < |s|
    ensures multiset(s) == multiset(s[..i] + s[i + 1..]) + multiset{s[i]}
  {
    assert s == s[..i] + [s[i]] + s[i + 1..];
  }

  lemma RemoveMatching<T>(a: seq<T>, b: seq<T>) returns (i: nat)
    requires multiset(a) == multiset(b) && a != []
    ensures i < |b| && b[i] == a[|a| - 1]
    ensures multiset(a[..|a| - 1]) == multiset(b[..i] + b[i + 1..])
  {
    var n := |a| - 1;
    assert a[n] in multiset(a);
    i :| 0 <= i < |b| && b[i] == a[n];
    MultisetSplit(a, n);
    MultisetSplit(b, i);
    assert a[..n] + a[n + 1..] == a[..n];
    assert multiset(a[..n]) == multiset(a) - multiset{a[n]};
    assert multiset(b[..i] + b[i + 1..]) == multiset(b) - multiset{b[i]};
  }

  lemma NoDupAppend<T>(s: seq<T>, x: T)
    ensures NoDup(s + [x]) <==> NoDup(s) && x !in s
  {
    var t := s + [x];
    if NoDup(t) {
      assert t[|s|] == x;
      assert forall i :: 0 <= i < |s| ==> t[i] == s[i];
    }
  }

  lemma {:induction false} SomeEnumeration<T(!new)>(c: set<T>) returns (s: seq<T>)
    ensures Enumerates(s, c)
    decreases |c|
  {
    if c == {} {
      s := [];
    } else {
      var x :| x in c;
      var rest := SomeEnumeration(c - {x});
      s := rest + [x];
      NoDupAppend(rest, x);
    }
  }
}
