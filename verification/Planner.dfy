// egrph-core/src/planner/mod.rs: patterns, logical plans, the plan of a chain
// of fixed-length hops, and WHERE equalities pushed into a scan.

module Planner {
  import opened GraphTypes
  import opened Expressions
  import opened Decimals

  datatype MapKey = Identifier(name: string) | Dynamic(key: Expr)

  datatype Entry = Entry(key: MapKey, value: Expr)

  datatype NodePattern = NodePattern(variable: Option<string>, labels: seq<string>, props: Option<seq<Entry>>)

  datatype RelPattern =
    RelPattern(variable: Option<string>, relTypes: seq<string>, dir: Direction, props: Option<seq<Entry>>)

  // A fixed-length hop: the relationship and the node it leads to.
  datatype Element = Element(rel: RelPattern, node: NodePattern)

  type InlineProps = seq<(string, Expr)>

  datatype Plan =
    | ScanNodes(lab: Option<string>, inline: InlineProps, variable: string)
    | Expand(input: Plan, src: string, relVar: Option<string>, dst: string, relTypes: seq<string>, dir: Direction)
    | Filter(input: Plan, condition: Expr)

  // Entries with a computed key are ignored wherever a pattern is planned.
  function EntriesOf(props: Option<seq<Entry>>): seq<Entry> {
    if props.Some? then props.value else []
  }

  function Inline(entries: seq<Entry>): InlineProps {
    if entries == [] then []
    else if entries[0].key.Identifier? then [(entries[0].key.name, entries[0].value)] + Inline(entries[1..])
    else Inline(entries[1..])
  }

  // --- Generated variable names ---

  function AnonNode(part: nat): string {
    "__egrph_anon_" + NatToString(part) + "__"
  }

  function AnonStart(part: nat): string {
    "__egrph_anon_start_" + NatToString(part) + "__"
  }

  function AnonRel(part: nat, i: nat): string {
    "__egrph_anon_rel_" + NatToString(part) + "_" + NatToString(i) + "__"
  }

  function AnonDst(part: nat, i: nat): string {
    "__egrph_anon_dst_" + NatToString(part) + "_" + NatToString(i) + "__"
  }

  // A pattern of one node is named apart from the start of a chain.
  function StartVar(part: nat, start: NodePattern, elements: seq<Element>): string {
    if start.variable.Some? then start.variable.value
    else if elements == [] then AnonNode(part) else AnonStart(part)
  }

  // A relationship gets a name when it has one or when its properties need one.
  function RelVar(part: nat, elements: seq<Element>, i: nat): Option<string>
    requires i < |elements|
  {
    var rel := elements[i].rel;
    if rel.variable.Some? then rel.variable
    else if rel.props.Some? then Some(AnonRel(part, i)) else None
  }

  function DstVar(part: nat, elements: seq<Element>, i: nat): string
    requires i < |elements|
  {
    var node := elements[i].node;
    if node.variable.Some? then node.variable.value else AnonDst(part, i)
  }

  function SrcVar(part: nat, start: NodePattern, elements: seq<Element>, i: nat): string
    requires i < |elements|
  {
    if i == 0 then StartVar(part, start, elements) else DstVar(part, elements, i - 1)
  }

  // --- Filters ---

  function LabelFilter(variable: string, lab: string): Expr {
    HasLabel(Variable(variable), lab)
  }

  function PropFilter(variable: string, key: string, value: Expr): Expr {
    Comparison(Property(Variable(variable), key), Eq, value)
  }

  function WithLabels(p: Plan, variable: string, labels: seq<string>): Plan
    decreases |labels|
  {
    if labels == [] then p
    else Filter(WithLabels(p, variable, labels[..|labels| - 1]), LabelFilter(variable, labels[|labels| - 1]))
  }

  function WithProps(p: Plan, variable: string, props: InlineProps): Plan
    decreases |props|
  {
    if props == [] then p
    else
      var (k, e) := props[|props| - 1];
      Filter(WithProps(p, variable, props[..|props| - 1]), PropFilter(variable, k, e))
  }

  method AddLabelFilters(p: Plan, variable: string, labels: seq<string>) returns (current: Plan)
    ensures current == WithLabels(p, variable, labels)
  {
    current := p;
    for j := 0 to |labels|
      invariant current == WithLabels(p, variable, labels[..j])
    {
      current := Filter(current, LabelFilter(variable, labels[j]));
      assert labels[..j + 1][..j] == labels[..j];
    }
    assert labels[..|labels|] == labels;
  }

  lemma {:induction false} InlineSnoc(entries: seq<Entry>, e: Entry)
    ensures Inline(entries + [e]) ==
            if e.key.Identifier? then Inline(entries) + [(e.key.name, e.value)] else Inline(entries)
  {
    if entries == [] {
      assert [e][1..] == [];
    } else {
      assert (entries + [e])[1..] == entries[1..] + [e];
      InlineSnoc(entries[1..], e);
    }
  }

  method AddPropertyFilters(p: Plan, variable: string, entries: seq<Entry>) returns (current: Plan)
    ensures current == WithProps(p, variable, Inline(entries))
  {
    current := p;
    for j := 0 to |entries|
      invariant current == WithProps(p, variable, Inline(entries[..j]))
    {
      var Entry(key, value) := entries[j];
      InlineSnoc(entries[..j], entries[j]);
      assert entries[..j + 1] == entries[..j] + [entries[j]];
      if key.Dynamic? {
        continue;
      }
      current := Filter(current, PropFilter(variable, key.name, value));
      ghost var props := Inline(entries[..j + 1]);
      assert props[..|props| - 1] == Inline(entries[..j]);
    }
    assert entries[..|entries|] == entries;
  }

  // --- The plan of a chain ---

  // The label a scan looks up; the others become filters.
  function FirstLabel(np: NodePattern): Option<string> {
    if np.labels == [] then None else Some(np.labels[0])
  }

  function HopPlan(p: Plan, part: nat, start: NodePattern, elements: seq<Element>, i: nat): Plan
    requires i < |elements|
  {
    var el := elements[i];
    var rv, dv := RelVar(part, elements, i), DstVar(part, elements, i);
    var expanded := Expand(p, SrcVar(part, start, elements, i), rv, dv, el.rel.relTypes, el.rel.dir);
    var related := if rv.Some? then WithProps(expanded, rv.value, Inline(EntriesOf(el.rel.props))) else expanded;
    WithProps(WithLabels(related, dv, el.node.labels), dv, Inline(EntriesOf(el.node.props)))
  }

  function StartPlan(part: nat, start: NodePattern, elements: seq<Element>): Plan {
    var v := StartVar(part, start, elements);
    WithLabels(ScanNodes(FirstLabel(start), Inline(EntriesOf(start.props)), v),
               v, if start.labels == [] then [] else start.labels[1..])
  }

  function ChainPlan(part: nat, start: NodePattern, elements: seq<Element>, n: nat): Plan
    requires n <= |elements|
  {
    if n == 0 then StartPlan(part, start, elements)
    else HopPlan(ChainPlan(part, start, elements, n - 1), part, start, elements, n - 1)
  }

  // `plan_match_scan` on a node pattern (no elements) or a chain.
  method PlanMatchScan(part: nat, start: NodePattern, elements: seq<Element>) returns (current: Plan)
    ensures current == ChainPlan(part, start, elements, |elements|)
  {
    var startVar := StartVar(part, start, elements);
    current := ScanNodes(FirstLabel(start),
                         Inline(EntriesOf(start.props)), startVar);
    current := AddLabelFilters(current, startVar, if start.labels == [] then [] else start.labels[1..]);
    for i := 0 to |elements|
      invariant current == ChainPlan(part, start, elements, i)
    {
      var el := elements[i];
      var relVar, dstVar := RelVar(part, elements, i), DstVar(part, elements, i);
      current := Expand(current, SrcVar(part, start, elements, i), relVar, dstVar, el.rel.relTypes, el.rel.dir);
      if relVar.Some? {
        current := AddPropertyFilters(current, relVar.value, EntriesOf(el.rel.props));
      }
      current := AddLabelFilters(current, dstVar, el.node.labels);
      current := AddPropertyFilters(current, dstVar, EntriesOf(el.node.props));
    }
  }

  // Every variable a planned chain binds, in binding order.
  function ChainVars(part: nat, start: NodePattern, elements: seq<Element>, n: nat): seq<string>
    requires n <= |elements|
  {
    if n == 0 then [StartVar(part, start, elements)]
    else
      ChainVars(part, start, elements, n - 1)
      + (if RelVar(part, elements, n - 1).Some? then [RelVar(part, elements, n - 1).value] else [])
      + [DstVar(part, elements, n - 1)]
  }

  // --- WHERE pushed into the scan ---

  predicate IsScanPushable(e: Expr) {
    (e.Literal? && !e.lit.LNull?) || e.Parameter?
  }

  predicate HasKey(inline: InlineProps, key: string) {
    exists i :: 0 <= i < |inline| && inline[i].0 == key
  }

  function AppendRemaining(e: Expr, remaining: Option<Expr>): Option<Expr> {
    Some(if remaining.None? then e else And(remaining.value, e))
  }

  predicate IsPropertyOf(e: Expr, variable: string) {
    e.Property? && e.base == Variable(variable)
  }

  // `extract_scan_equalities`, its two accumulators threaded through.
  function Extract(p: Expr, variable: string, inline: InlineProps, remaining: Option<Expr>):
    (InlineProps, Option<Expr>)
  {
    match p
    case And(l, r) =>
      var (i1, r1) := Extract(l, variable, inline, remaining);
      Extract(r, variable, i1, r1)
    case Comparison(l, Eq, r) =>
      if IsPropertyOf(l, variable) && IsScanPushable(r) && !HasKey(inline, l.key) then
        (inline + [(l.key, r)], remaining)
      else if IsPropertyOf(r, variable) && IsScanPushable(l) && !HasKey(inline, r.key) then
        (inline + [(r.key, l)], remaining)
      else (inline, AppendRemaining(p, remaining))
    case _ => (inline, AppendRemaining(p, remaining))
  }

  function PushWhereIntoScan(condition: Expr, input: Plan): Plan {
    if !input.ScanNodes? then Filter(input, condition)
    else
      var (inline, remaining) := Extract(condition, input.variable, input.inline, None);
      var scan := ScanNodes(input.lab, inline, input.variable);
      if remaining.None? then scan else Filter(scan, remaining.value)
  }
}
