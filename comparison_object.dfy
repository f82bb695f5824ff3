/** Comparison objects: the classified difference records the differ emits, the
    rule that classifies one name, and the sort key of the forest. */
module ComparisonObjects {
  import opened Ordering
  import TM = TabularModel

  type Name = TM.Name

  datatype ComparisonObjectType =
    Connection | Table | Relationship | Measure | Kpi | Expression | Perspective | Culture | Role

  datatype ComparisonObjectStatus = MissingInTarget | MissingInSource | SameDefinition | DifferentDefinitions

  datatype MergeAction = Create | Update | Delete | Skip

  datatype ProcessingOption = Recalc | Default | DoNotProcess | Full

  /** The comparison options the core reads. */
  datatype OptionsInfo = OptionsInfo(
    optionPerspectives: bool,
    optionMergePerspectives: bool,
    optionCultures: bool,
    optionMergeCultures: bool,
    optionRoles: bool,
    optionProcessingOption: ProcessingOption,
    optionAffectedTables: bool)

  /** One node of the comparison forest. Source and target object names coincide,
      because objects are matched by name; a MissingInTarget node has no target
      object and a MissingInSource node no source object. Only tables have children. */
  datatype ComparisonObject = ComparisonObject(
    objectType: ComparisonObjectType,
    status: ComparisonObjectStatus,
    name: Name,
    mergeAction: MergeAction,
    children: seq<ComparisonObject>)

  function TypeRank(t: ComparisonObjectType): int {
    match t
    case Connection => 0
    case Table => 1
    case Relationship => 2
    case Measure => 3
    case Kpi => 4
    case Expression => 5
    case Perspective => 6
    case Culture => 7
    case Role => 8
  }

  /** The forest is sorted by object type, then by name. */
  function Key(c: ComparisonObject): SortKey {
    SortKey(TypeRank(c.objectType), c.name)
  }

  lemma KeyInjective(a: ComparisonObject, b: ComparisonObject)
    ensures Key(a) == Key(b) <==> a.objectType == b.objectType && a.name == b.name
  {
  }

  /** The action a status is offered with by default. */
  function DefaultAction(s: ComparisonObjectStatus): MergeAction {
    match s
    case MissingInTarget => Create
    case MissingInSource => Delete
    case DifferentDefinitions => Update
    case SameDefinition => Skip
  }

  /** Structural equality of two definitions. */
  predicate EqualDefinitions<T(==)>(a: T, b: T) {
    a == b
  }

  /** ContainsOtherPerspectiveSelections / ContainsOtherCultureTranslations. */
  predicate ContainsOther(container: TM.Selections, other: TM.Selections) {
    other <= container
  }

  /** Equality of two perspectives or cultures: the target contains the source,
      and in overwrite mode the source also contains the target. */
  function SameSelections(merge: bool): (TM.Selections, TM.Selections) -> bool {
    (s: TM.Selections, t: TM.Selections) =>
      (merge && ContainsOther(t, s)) || (!merge && ContainsOther(t, s) && ContainsOther(s, t))
  }

  /** The node the two-pass match emits for name n of one category: source-only,
      present in both with equal or unequal definitions, or target-only. */
  function Classify<T>(ty: ComparisonObjectType, n: Name, src: map<Name, T>, tgt: map<Name, T>,
                       same: (T, T) -> bool): ComparisonObject
    requires n in src || n in tgt
  {
    if n !in tgt then ComparisonObject(ty, MissingInTarget, n, Create, [])
    else if n !in src then ComparisonObject(ty, MissingInSource, n, Delete, [])
    else if same(src[n], tgt[n]) then ComparisonObject(ty, SameDefinition, n, Skip, [])
    else ComparisonObject(ty, DifferentDefinitions, n, Update, [])
  }

  /** The classification rule, both directions, and that the action is the status's default. */
  lemma ClassifyRule<T>(ty: ComparisonObjectType, n: Name, src: map<Name, T>, tgt: map<Name, T>,
                        same: (T, T) -> bool)
    requires n in src || n in tgt
    ensures var c := Classify(ty, n, src, tgt, same);
      && c.objectType == ty && c.name == n && c.children == []
      && c.mergeAction == DefaultAction(c.status)
      && (c.status == MissingInTarget <==> n in src && n !in tgt)
      && (c.status == MissingInSource <==> n !in src && n in tgt)
      && (c.status == SameDefinition <==> n in src && n in tgt && same(src[n], tgt[n]))
      && (c.status == DifferentDefinitions <==> n in src && n in tgt && !same(src[n], tgt[n]))
  {
  }

  /** How a perspective or culture present on both sides is classified. */
  lemma SelectionsRule(n: Name, ty: ComparisonObjectType, src: map<Name, TM.Selections>,
                       tgt: map<Name, TM.Selections>, merge: bool)
    requires n in src && n in tgt
    ensures var c := Classify(ty, n, src, tgt, SameSelections(merge));
      && (merge ==> (c.status == SameDefinition <==> src[n] <= tgt[n]))
      && (!merge ==> (c.status == SameDefinition <==> src[n] == tgt[n]))
      && (c.status != SameDefinition ==> c.status == DifferentDefinitions && c.mergeAction == Update)
  {
  }

  /** The type of a measure's node: KPI or plain measure. */
  function MeasureType(m: TM.Measure): (t: ComparisonObjectType)
    ensures t == Kpi <==> m.isKpi
    ensures t == Kpi || t == Measure
  {
    if m.isKpi then Kpi else Measure
  }

  predicate IsTopType(t: ComparisonObjectType) {
    t in {Connection, Table, Expression, Perspective, Culture, Role}
  }

  predicate IsChildType(t: ComparisonObjectType) {
    t in {Relationship, Measure, Kpi}
  }

  /** The user may keep the default action or change it to Skip. */
  predicate ActionAllowed(c: ComparisonObject) {
    c.mergeAction == DefaultAction(c.status) || c.mergeAction == Skip
  }

  /** A child node: a relationship, measure or KPI with no children of its own. */
  ghost predicate ChildShaped(c: ComparisonObject) {
    IsChildType(c.objectType) && ActionAllowed(c) && c.children == []
  }

  /** A top-level node: only tables have children. */
  ghost predicate NodeShaped(x: ComparisonObject) {
    && IsTopType(x.objectType)
    && ActionAllowed(x)
    && (x.objectType != Table ==> x.children == [])
    && forall j :: 0 <= j < |x.children| ==> ChildShaped(x.children[j])
  }

  /** The shape every forest has: top-level nodes of top-level types, children of
      child types and only under tables, no grandchildren. */
  ghost predicate WellShaped(forest: seq<ComparisonObject>) {
    forall i :: 0 <= i < |forest| ==> NodeShaped(forest[i])
  }

  /** _comparisonObjectCount: every node, parents plus children. */
  function TotalNodes(s: seq<ComparisonObject>): nat {
    if s == [] then 0 else TotalNodes(s[..|s| - 1]) + 1 + |s[|s| - 1].children|
  }

  lemma {:induction false} TotalNodesAppend(s: seq<ComparisonObject>, t: seq<ComparisonObject>)
    ensures TotalNodes(s + t) == TotalNodes(s) + TotalNodes(t)
    decreases |t|
  {
    if t != [] {
      var u := s + t;
      assert u[..|u| - 1] == s + t[..|t| - 1];
      assert u[|u| - 1] == t[|t| - 1];
      TotalNodesAppend(s, t[..|t| - 1]);
      assert TotalNodes(u) == TotalNodes(u[..|u| - 1]) + 1 + |u[|u| - 1].children|;
    } else {
      assert s + t == s;
    }
  }

  lemma {:induction false} TotalNodesInsert(x: ComparisonObject, s: seq<ComparisonObject>)
    ensures TotalNodes(InsertBy(x, s, Key)) == TotalNodes(s) + 1 + |x.children|
  {
    TotalNodesAppend([x], s);
    assert TotalNodes([x]) == 1 + |x.children| by { assert [x][..0] == []; }
    if s != [] && !KeyLe(Key(x), Key(s[0])) {
      TotalNodesInsert(x, s[1..]);
      TotalNodesAppend([s[0]], s[1..]);
      TotalNodesAppend([s[0]], InsertBy(x, s[1..], Key));
      assert TotalNodes([s[0]]) == 1 + |s[0].children| by { assert [s[0]][..0] == []; }
      assert s == [s[0]] + s[1..];
    }
  }

  /** Sorting keeps the number of nodes. */
  lemma {:induction false} TotalNodesSort(s: seq<ComparisonObject>)
    ensures TotalNodes(SortBy(s, Key)) == TotalNodes(s)
  {
    if s != [] {
      TotalNodesSort(s[1..]);
      TotalNodesInsert(s[0], SortBy(s[1..], Key));
      TotalNodesAppend([s[0]], s[1..]);
      assert TotalNodes([s[0]]) == 1 + |s[0].children| by { assert [s[0]][..0] == []; }
      assert s == [s[0]] + s[1..];
    }
  }
}
