// The names the planner generates never meet each other or a name a query can
// spell, since identifiers may not begin with two underscores.

module PatternNames {
  import opened GraphTypes
  import opened Sequences
  import opened Decimals
  import opened Planner
  import opened MatchChain

  datatype Position = AtStart | AtRel(i: nat) | AtDst(i: nat)

  ghost predicate IsPosition(elements: seq<Element>, k: nat, p: Position)
    requires k <= |elements|
  {
    match p
    case AtStart => true
    case AtRel(i) => i < k && (elements[i].rel.variable.Some? || elements[i].rel.props.Some?)
    case AtDst(i) => i < k
  }

  function WrittenName(start: NodePattern, elements: seq<Element>, p: Position): Option<string> {
    match p
    case AtStart => start.variable
    case AtRel(i) => if i < |elements| then elements[i].rel.variable else None
    case AtDst(i) => if i < |elements| then elements[i].node.variable else None
  }

  function GeneratedName(part: nat, elements: seq<Element>, p: Position): string {
    match p
    case AtStart => if elements == [] then AnonNode(part) else AnonStart(part)
    case AtRel(i) => AnonRel(part, i)
    case AtDst(i) => AnonDst(part, i)
  }

  function NameAt(part: nat, start: NodePattern, elements: seq<Element>, p: Position): string {
    var w := WrittenName(start, elements, p);
    if w.Some? then w.value else GeneratedName(part, elements, p)
  }

  // The names written in the pattern are identifiers, all different.
  ghost predicate WrittenNamesOk(start: NodePattern, elements: seq<Element>) {
    && (forall p | IsPosition(elements, |elements|, p) && WrittenName(start, elements, p).Some? ::
          !("__" <= WrittenName(start, elements, p).value))
    && (forall p, q | IsPosition(elements, |elements|, p) && IsPosition(elements, |elements|, q) && p != q ::
          WrittenName(start, elements, p).Some? ==> WrittenName(start, elements, p) != WrittenName(start, elements, q))
  }

  lemma BetweenIsInjective(a: string, x: string, y: string, c: string)
    requires a + x + c == a + y + c
    ensures x == y
  {
    assert (a + x + c)[|a|..|a| + |x|] == x;
    assert |a + x + c| == |a + y + c|;
    assert (a + y + c)[|a|..|a| + |y|] == y;
  }

  lemma GeneratedShape(part: nat, elements: seq<Element>, p: Position)
    ensures "__" <= GeneratedName(part, elements, p)
    ensures |GeneratedName(part, elements, p)| > 13
    ensures var c := GeneratedName(part, elements, p)[13];
            match p
            case AtStart => c == 's' || IsDigit(c)
            case AtRel(_) => c == 'r'
            case AtDst(_) => c == 'd'
  {
    if p.AtStart? && elements == [] {
      assert NatToString(part)[0] in NatToString(part);
    }
  }

  lemma GeneratedNamesDiffer(part: nat, elements: seq<Element>, p: Position, q: Position)
    requires p != q
    ensures GeneratedName(part, elements, p) != GeneratedName(part, elements, q)
  {
    GeneratedShape(part, elements, p);
    GeneratedShape(part, elements, q);
    if GeneratedName(part, elements, p) == GeneratedName(part, elements, q) {
      match (p, q) {
        case (AtRel(i), AtRel(j)) =>
          BetweenIsInjective("__egrph_anon_rel_" + NatToString(part) + "_", NatToString(i), NatToString(j), "__");
          NatToStringInjective(i, j);
        case (AtDst(i), AtDst(j)) =>
          BetweenIsInjective("__egrph_anon_dst_" + NatToString(part) + "_", NatToString(i), NatToString(j), "__");
          NatToStringInjective(i, j);
        case _ =>
      }
    }
  }

  lemma NamesDiffer(part: nat, start: NodePattern, elements: seq<Element>, p: Position, q: Position)
    requires WrittenNamesOk(start, elements) && p != q
    requires IsPosition(elements, |elements|, p) && IsPosition(elements, |elements|, q)
    ensures NameAt(part, start, elements, p) != NameAt(part, start, elements, q)
  {
    GeneratedNamesDiffer(part, elements, p, q);
    GeneratedShape(part, elements, p);
    GeneratedShape(part, elements, q);
  }

  lemma {:induction false} VarsArePositions(part: nat, start: NodePattern, elements: seq<Element>, k: nat, x: string)
    requires k <= |elements| && x in ChainVars(part, start, elements, k)
    ensures exists p :: IsPosition(elements, k, p) && NameAt(part, start, elements, p) == x
    decreases k
  {
    if k == 0 {
      assert IsPosition(elements, k, AtStart) && NameAt(part, start, elements, AtStart) == x;
    } else if x in ChainVars(part, start, elements, k - 1) {
      VarsArePositions(part, start, elements, k - 1, x);
      var p :| IsPosition(elements, k - 1, p) && NameAt(part, start, elements, p) == x;
      assert IsPosition(elements, k, p);
    } else if x == DstVar(part, elements, k - 1) {
      assert IsPosition(elements, k, AtDst(k - 1)) && NameAt(part, start, elements, AtDst(k - 1)) == x;
    } else {
      assert IsPosition(elements, k, AtRel(k - 1)) && NameAt(part, start, elements, AtRel(k - 1)) == x;
    }
  }

  // A pattern whose written names are distinct identifiers is planned with
  // distinct variables throughout.
  lemma {:induction false} ChainVarsDistinct(part: nat, start: NodePattern, elements: seq<Element>, k: nat)
    requires k <= |elements| && WrittenNamesOk(start, elements)
    ensures NoDup(ChainVars(part, start, elements, k))
    decreases k
  {
    if k > 0 {
      var prev := ChainVars(part, start, elements, k - 1);
      ChainVarsDistinct(part, start, elements, k - 1);
      FreshAt(part, start, elements, k, AtDst(k - 1));
      var rv := RelVar(part, elements, k - 1);
      if rv.Some? {
        FreshAt(part, start, elements, k, AtRel(k - 1));
        NamesDiffer(part, start, elements, AtRel(k - 1), AtDst(k - 1));
        NoDupAppend(prev, rv.value);
        NoDupAppend(prev + [rv.value], DstVar(part, elements, k - 1));
      } else {
        assert prev + [] == prev;
        NoDupAppend(prev, DstVar(part, elements, k - 1));
      }
    }
  }

  lemma FreshAt(part: nat, start: NodePattern, elements: seq<Element>, k: nat, p: Position)
    requires 0 < k <= |elements| && WrittenNamesOk(start, elements)
    requires IsPosition(elements, k, p) && !IsPosition(elements, k - 1, p)
    ensures NameAt(part, start, elements, p) !in ChainVars(part, start, elements, k - 1)
  {
    var x := NameAt(part, start, elements, p);
    if x in ChainVars(part, start, elements, k - 1) {
      VarsArePositions(part, start, elements, k - 1, x);
      var q :| IsPosition(elements, k - 1, q) && NameAt(part, start, elements, q) == x;
      NamesDiffer(part, start, elements, p, q);
    }
  }

  lemma HopNamesAlwaysDiffer(part: nat, start: NodePattern, elements: seq<Element>)
    requires WrittenNamesOk(start, elements)
    ensures HopNamesDiffer(part, elements)
  {
    forall i | 0 <= i < |elements| ensures RelVar(part, elements, i) != Some(DstVar(part, elements, i)) {
      if RelVar(part, elements, i).Some? {
        NamesDiffer(part, start, elements, AtRel(i), AtDst(i));
      }
    }
  }
}
