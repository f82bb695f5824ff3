/** The structural differ: for every category a symmetric two-pass match by name
    between source and target, child nodes for the relationships and measures of
    each table, a node count, and a sorted forest.

    `ForestSpec` states what the forest is; the methods below build it with the
    loops of the original and are proved to meet it. */
module Differ {
  import opened Ordering
  import opened ComparisonObjects
  import TM = TabularModel

  function Names(s: seq<ComparisonObject>): set<Name> {
    set i | 0 <= i < |s| :: s[i].name
  }

  function KeySet(s: seq<ComparisonObject>): set<SortKey> {
    set i | 0 <= i < |s| :: Key(s[i])
  }

  ghost predicate DistinctNames(s: seq<ComparisonObject>) {
    forall i, j :: 0 <= i < j < |s| ==> s[i].name != s[j].name
  }

  /** Moving n from `pending` to the visited part of `all`. */
  lemma PendingStep<X>(all: set<X>, pending: set<X>, n: X)
    requires n in pending && pending <= all
    ensures (all - pending) + {n} == all - (pending - {n})
  {
  }

  lemma PendingStepAfter<X>(base: set<X>, all: set<X>, pending: set<X>, n: X)
    requires n in pending && pending <= all
    ensures base + (all - pending) + {n} == base + (all - (pending - {n}))
    ensures n in base ==> base + (all - pending) == base + (all - (pending - {n}))
  {
  }

  lemma NamesAppend(s: seq<ComparisonObject>, x: ComparisonObject)
    ensures Names(s + [x]) == Names(s) + {x.name}
  {
    var u := s + [x];
    assert u[|s|] == x;
    forall n | n in Names(s) ensures n in Names(u) {
      var i :| 0 <= i < |s| && s[i].name == n;
      assert u[i] == s[i];
    }
  }

  lemma KeySetAppend(s: seq<ComparisonObject>, t: seq<ComparisonObject>)
    ensures KeySet(s + t) == KeySet(s) + KeySet(t)
  {
    var u := s + t;
    forall k | k in KeySet(s) ensures k in KeySet(u) {
      var i :| 0 <= i < |s| && Key(s[i]) == k;
      assert u[i] == s[i];
    }
    forall k | k in KeySet(t) ensures k in KeySet(u) {
      var i :| 0 <= i < |t| && Key(t[i]) == k;
      assert u[|s| + i] == t[i];
    }
    forall k | k in KeySet(u) ensures k in KeySet(s) + KeySet(t) {
      var i :| 0 <= i < |u| && Key(u[i]) == k;
      if i < |s| { assert u[i] == s[i]; } else { assert u[i] == t[i - |s|]; }
    }
  }

  // ---------------------------------------------------------------------------
  // One category

  ghost predicate AllClassified<T>(nodes: seq<ComparisonObject>, ty: ComparisonObjectType,
                                   src: map<Name, T>, tgt: map<Name, T>, same: (T, T) -> bool) {
    forall i :: 0 <= i < |nodes| ==>
      (nodes[i].name in src || nodes[i].name in tgt) &&
      nodes[i] == Classify(ty, nodes[i].name, src, tgt, same)
  }

  /** `nodes` is the two-pass match of one category: one node per name of
      source or target, each classified by `Classify`. */
  ghost predicate CategoryDiffed<T>(nodes: seq<ComparisonObject>, ty: ComparisonObjectType,
                                    src: map<Name, T>, tgt: map<Name, T>, same: (T, T) -> bool) {
    && DistinctNames(nodes)
    && Names(nodes) == src.Keys + tgt.Keys
    && AllClassified(nodes, ty, src, tgt, same)
  }

  /** Appending a node with a fresh name keeps the names distinct. */
  lemma FreshSnoc(nodes: seq<ComparisonObject>, c: ComparisonObject)
    requires DistinctNames(nodes) && c.name !in Names(nodes)
    ensures DistinctNames(nodes + [c])
    ensures Names(nodes + [c]) == Names(nodes) + {c.name}
  {
    NamesAppend(nodes, c);
    var u := nodes + [c];
    forall i, j | 0 <= i < j < |u| ensures u[i].name != u[j].name {
      assert u[i] == nodes[i];
      if j < |nodes| { assert u[j] == nodes[j]; } else { assert u[i].name in Names(nodes); }
    }
  }

  lemma ClassifiedSnoc<T>(nodes: seq<ComparisonObject>, c: ComparisonObject, ty: ComparisonObjectType,
                          src: map<Name, T>, tgt: map<Name, T>, same: (T, T) -> bool)
    requires AllClassified(nodes, ty, src, tgt, same)
    requires (c.name in src || c.name in tgt) && c == Classify(ty, c.name, src, tgt, same)
    ensures AllClassified(nodes + [c], ty, src, tgt, same)
  {
    var u := nodes + [c];
    forall i | 0 <= i < |u|
      ensures (u[i].name in src || u[i].name in tgt) && u[i] == Classify(ty, u[i].name, src, tgt, same)
    {
      if i < |nodes| { assert u[i] == nodes[i]; }
    }
  }

  /** The two passes over one category: source objects first (missing in target,
      different or same definition), then target objects missing in source.
      `count` is the node counter, bumped once per node. */
  method DiffCategory<T>(ty: ComparisonObjectType, src: map<Name, T>, tgt: map<Name, T>,
                         same: (T, T) -> bool, count0: nat)
    returns (nodes: seq<ComparisonObject>, count: nat)
    ensures CategoryDiffed(nodes, ty, src, tgt, same)
    ensures count == count0 + |nodes|
  {
    nodes, count := [], count0;
    var pending := src.Keys;
    while pending != {}
      invariant pending <= src.Keys
      invariant DistinctNames(nodes)
      invariant Names(nodes) == src.Keys - pending
      invariant AllClassified(nodes, ty, src, tgt, same)
      invariant count == count0 + |nodes|
      decreases pending
    {
      var n :| n in pending;
      PendingStep(src.Keys, pending, n);
      var c;
      if n !in tgt {
        c := ComparisonObject(ty, MissingInTarget, n, Create, []);
      } else if !same(src[n], tgt[n]) {
        c := ComparisonObject(ty, DifferentDefinitions, n, Update, []);
      } else {
        c := ComparisonObject(ty, SameDefinition, n, Skip, []);
      }
      FreshSnoc(nodes, c);
      ClassifiedSnoc(nodes, c, ty, src, tgt, same);
      nodes := nodes + [c];
      count := count + 1;
      pending := pending - {n};
    }
    pending := tgt.Keys;
    while pending != {}
      invariant pending <= tgt.Keys
      invariant DistinctNames(nodes)
      invariant Names(nodes) == src.Keys + (tgt.Keys - pending)
      invariant AllClassified(nodes, ty, src, tgt, same)
      invariant count == count0 + |nodes|
      decreases pending
    {
      var n :| n in pending;
      PendingStepAfter(src.Keys, tgt.Keys, pending, n);
      if n !in src {
        var c := ComparisonObject(ty, MissingInSource, n, Delete, []);
        FreshSnoc(nodes, c);
        ClassifiedSnoc(nodes, c, ty, src, tgt, same);
        nodes := nodes + [c];
        count := count + 1;
      }
      pending := pending - {n};
    }
  }

  // ---------------------------------------------------------------------------
  // Measures and KPIs of one table

  /** The node of measure n. Its type follows the source measure when there is one;
      a target-only measure is typed by its own KPI flag when `typedTargetOnly`,
      and always as a plain measure otherwise (a table missing in source). */
  function MeasureNode(n: Name, sm: map<Name, TM.Measure>, tm: map<Name, TM.Measure>,
                       typedTargetOnly: bool): (c: ComparisonObject)
    requires n in sm || n in tm
    ensures c.objectType != Relationship
  {
    var c := Classify(Measure, n, sm, tm, EqualDefinitions);
    c.(objectType := if n in sm then MeasureType(sm[n])
                     else if typedTargetOnly then MeasureType(tm[n])
                     else Measure)
  }

  ghost predicate AllMeasured(nodes: seq<ComparisonObject>, sm: map<Name, TM.Measure>,
                              tm: map<Name, TM.Measure>, typedTargetOnly: bool) {
    forall i :: 0 <= i < |nodes| ==>
      (nodes[i].name in sm || nodes[i].name in tm) &&
      nodes[i] == MeasureNode(nodes[i].name, sm, tm, typedTargetOnly)
  }

  ghost predicate MeasuresDiffed(nodes: seq<ComparisonObject>, sm: map<Name, TM.Measure>,
                                 tm: map<Name, TM.Measure>, typedTargetOnly: bool) {
    && DistinctNames(nodes)
    && Names(nodes) == sm.Keys + tm.Keys
    && AllMeasured(nodes, sm, tm, typedTargetOnly)
  }

  lemma MeasuredSnoc(nodes: seq<ComparisonObject>, c: ComparisonObject, sm: map<Name, TM.Measure>,
                     tm: map<Name, TM.Measure>, typedTargetOnly: bool)
    requires AllMeasured(nodes, sm, tm, typedTargetOnly)
    requires (c.name in sm || c.name in tm) && c == MeasureNode(c.name, sm, tm, typedTargetOnly)
    ensures AllMeasured(nodes + [c], sm, tm, typedTargetOnly)
  {
    var u := nodes + [c];
    forall i | 0 <= i < |u|
      ensures (u[i].name in sm || u[i].name in tm) && u[i] == MeasureNode(u[i].name, sm, tm, typedTargetOnly)
    {
      if i < |nodes| { assert u[i] == nodes[i]; }
    }
  }

  method DiffMeasures(sm: map<Name, TM.Measure>, tm: map<Name, TM.Measure>, typedTargetOnly: bool,
                      count0: nat)
    returns (nodes: seq<ComparisonObject>, count: nat)
    ensures MeasuresDiffed(nodes, sm, tm, typedTargetOnly)
    ensures count == count0 + |nodes|
  {
    nodes, count := [], count0;
    var pending := sm.Keys;
    while pending != {}
      invariant pending <= sm.Keys
      invariant DistinctNames(nodes)
      invariant Names(nodes) == sm.Keys - pending
      invariant AllMeasured(nodes, sm, tm, typedTargetOnly)
      invariant count == count0 + |nodes|
      decreases pending
    {
      var n :| n in pending;
      PendingStep(sm.Keys, pending, n);
      var ty := MeasureType(sm[n]);
      var c;
      if n in tm {
        if sm[n] == tm[n] {
          c := ComparisonObject(ty, SameDefinition, n, Skip, []);
        } else {
          c := ComparisonObject(ty, DifferentDefinitions, n, Update, []);
        }
      } else {
        c := ComparisonObject(ty, MissingInTarget, n, Create, []);
      }
      FreshSnoc(nodes, c);
      MeasuredSnoc(nodes, c, sm, tm, typedTargetOnly);
      nodes := nodes + [c];
      count := count + 1;
      pending := pending - {n};
    }
    pending := tm.Keys;
    while pending != {}
      invariant pending <= tm.Keys
      invariant DistinctNames(nodes)
      invariant Names(nodes) == sm.Keys + (tm.Keys - pending)
      invariant AllMeasured(nodes, sm, tm, typedTargetOnly)
      invariant count == count0 + |nodes|
      decreases pending
    {
      var n :| n in pending;
      PendingStepAfter(sm.Keys, tm.Keys, pending, n);
      var computedType := MeasureType(tm[n]);
      if n !in sm {
        var c := ComparisonObject(if typedTargetOnly then computedType else Measure,
                                  MissingInSource, n, Delete, []);
        FreshSnoc(nodes, c);
        MeasuredSnoc(nodes, c, sm, tm, typedTargetOnly);
        nodes := nodes + [c];
        count := count + 1;
      }
      pending := pending - {n};
    }
  }

  // ---------------------------------------------------------------------------
  // Tables and their children

  ghost predicate ChildRight(c: ComparisonObject,
                             sr: map<Name, TM.Relationship>, tr: map<Name, TM.Relationship>,
                             sm: map<Name, TM.Measure>, tm: map<Name, TM.Measure>, typed: bool) {
    if c.objectType == Relationship then
      (c.name in sr || c.name in tr) && c == Classify(Relationship, c.name, sr, tr, EqualDefinitions)
    else
      (c.name in sm || c.name in tm) && c == MeasureNode(c.name, sm, tm, typed)
  }

  function RelationshipNames(cs: seq<ComparisonObject>): set<Name> {
    set i | 0 <= i < |cs| && cs[i].objectType == Relationship :: cs[i].name
  }

  function MeasureNames(cs: seq<ComparisonObject>): set<Name> {
    set i | 0 <= i < |cs| && cs[i].objectType != Relationship :: cs[i].name
  }

  ghost predicate AllChildrenRight(cs: seq<ComparisonObject>, t: Name, src: TM.Model, tgt: TM.Model) {
    forall i :: 0 <= i < |cs| ==>
      ChildRight(cs[i], TM.SideRelationships(src, t), TM.SideRelationships(tgt, t),
                 TM.SideMeasures(src, t), TM.SideMeasures(tgt, t), t in src.tables)
  }

  /** The children of table t: the two-pass match of its relationships and of its
      measures, over the side(s) on which the table exists, sorted. */
  ghost predicate ChildrenRight(cs: seq<ComparisonObject>, t: Name, src: TM.Model, tgt: TM.Model) {
    && StrictlySorted(cs, Key)
    && AllChildrenRight(cs, t, src, tgt)
    && RelationshipNames(cs) == TM.SideRelationships(src, t).Keys + TM.SideRelationships(tgt, t).Keys
    && MeasureNames(cs) == TM.SideMeasures(src, t).Keys + TM.SideMeasures(tgt, t).Keys
  }

  ghost predicate TableRight(x: ComparisonObject, src: TM.Model, tgt: TM.Model) {
    && x.objectType == Table
    && (x.name in src.tables || x.name in tgt.tables)
    && x.(children := []) == Classify(Table, x.name, src.tables, tgt.tables, EqualDefinitions)
    && ChildrenRight(x.children, x.name, src, tgt)
  }

  /** Every node of the list is right; written from the back, so that it is
      unfolded one node at a time. */
  ghost predicate AllTablesRight(nodes: seq<ComparisonObject>, src: TM.Model, tgt: TM.Model)
    decreases |nodes|
  {
    |nodes| == 0 ||
    (AllTablesRight(nodes[..|nodes| - 1], src, tgt) && TableRight(nodes[|nodes| - 1], src, tgt))
  }

  lemma {:induction false} AllTablesRightAt(nodes: seq<ComparisonObject>, src: TM.Model, tgt: TM.Model, i: int)
    requires AllTablesRight(nodes, src, tgt) && 0 <= i < |nodes|
    ensures TableRight(nodes[i], src, tgt)
    decreases |nodes|
  {
    if i < |nodes| - 1 {
      AllTablesRightAt(nodes[..|nodes| - 1], src, tgt, i);
    }
  }

  ghost predicate TablesDiffed(nodes: seq<ComparisonObject>, src: TM.Model, tgt: TM.Model) {
    && DistinctNames(nodes)
    && Names(nodes) == src.tables.Keys + tgt.tables.Keys
    && AllTablesRight(nodes, src, tgt)
  }

  lemma TablesSnoc(nodes: seq<ComparisonObject>, c: ComparisonObject, src: TM.Model, tgt: TM.Model)
    requires AllTablesRight(nodes, src, tgt) && TableRight(c, src, tgt)
    ensures AllTablesRight(nodes + [c], src, tgt)
  {
    assert (nodes + [c])[..|nodes|] == nodes;
  }

  lemma KeysJoined(rels: seq<ComparisonObject>, ms: seq<ComparisonObject>)
    requires DistinctNames(rels) && DistinctNames(ms)
    requires forall i :: 0 <= i < |rels| ==> rels[i].objectType == Relationship
    requires forall j :: 0 <= j < |ms| ==> ms[j].objectType != Relationship
    ensures DistinctKeys(rels + ms, Key)
  {
    var all := rels + ms;
    forall i, j | 0 <= i < j < |all| ensures Key(all[i]) != Key(all[j]) {
      if j < |rels| {
        assert all[i] == rels[i] && all[j] == rels[j];
      } else if i >= |rels| {
        assert all[i] == ms[i - |rels|] && all[j] == ms[j - |rels|];
      } else {
        assert all[i] == rels[i] && all[j] == ms[j - |rels|];
      }
    }
  }

  lemma NamesJoined(rels: seq<ComparisonObject>, ms: seq<ComparisonObject>)
    requires forall i :: 0 <= i < |rels| ==> rels[i].objectType == Relationship
    requires forall j :: 0 <= j < |ms| ==> ms[j].objectType != Relationship
    ensures RelationshipNames(rels + ms) == Names(rels)
    ensures MeasureNames(rels + ms) == Names(ms)
  {
    var all := rels + ms;
    forall n | n in RelationshipNames(all) ensures n in Names(rels) {
      var i :| 0 <= i < |all| && all[i].objectType == Relationship && all[i].name == n;
      assert all[i] == rels[i];
    }
    forall n | n in Names(rels) ensures n in RelationshipNames(all) {
      var i :| 0 <= i < |rels| && rels[i].name == n;
      assert all[i] == rels[i];
    }
    forall n | n in MeasureNames(all) ensures n in Names(ms) {
      var i :| 0 <= i < |all| && all[i].objectType != Relationship && all[i].name == n;
      assert all[i] == ms[i - |rels|];
    }
    forall n | n in Names(ms) ensures n in MeasureNames(all) {
      var i :| 0 <= i < |ms| && ms[i].name == n;
      assert all[|rels| + i] == ms[i];
    }
  }

  /** The relationships and measures put side by side have distinct keys and right nodes. */
  lemma {:induction false} ChildrenJoined(rels: seq<ComparisonObject>, ms: seq<ComparisonObject>,
                                          t: Name, src: TM.Model, tgt: TM.Model)
    requires CategoryDiffed(rels, Relationship, TM.SideRelationships(src, t), TM.SideRelationships(tgt, t), EqualDefinitions)
    requires MeasuresDiffed(ms, TM.SideMeasures(src, t), TM.SideMeasures(tgt, t), t in src.tables)
    ensures AllChildrenRight(rels + ms, t, src, tgt)
    ensures DistinctKeys(rels + ms, Key)
    ensures RelationshipNames(rels + ms) == Names(rels)
    ensures MeasureNames(rels + ms) == Names(ms)
  {
    var all := rels + ms;
    var sr, tr := TM.SideRelationships(src, t), TM.SideRelationships(tgt, t);
    var sm, tm := TM.SideMeasures(src, t), TM.SideMeasures(tgt, t);
    var typed := t in src.tables;
    forall i | 0 <= i < |all| ensures ChildRight(all[i], sr, tr, sm, tm, typed) {
      if i < |rels| { assert all[i] == rels[i]; } else { assert all[i] == ms[i - |rels|]; }
    }
    assert forall i :: 0 <= i < |rels| ==> rels[i].objectType == Relationship;
    assert forall j :: 0 <= j < |ms| ==> ms[j].objectType != Relationship;
    KeysJoined(rels, ms);
    NamesJoined(rels, ms);
  }

  /** Sorting a sequence keeps its elements. */
  lemma SortBySameElements(s: seq<ComparisonObject>)
    ensures forall x :: x in SortBy(s, Key) <==> x in s
  {
    var r := SortBy(s, Key);
    forall x ensures x in r <==> x in s {
      assert x in multiset(r) <==> x in multiset(s);
    }
  }

  lemma SubElementsSets(a: seq<ComparisonObject>, b: seq<ComparisonObject>)
    requires forall x :: x in a ==> x in b
    ensures Names(a) <= Names(b) && KeySet(a) <= KeySet(b)
    ensures RelationshipNames(a) <= RelationshipNames(b) && MeasureNames(a) <= MeasureNames(b)
  {
    forall n | n in Names(a) ensures n in Names(b) {
      var i :| 0 <= i < |a| && a[i].name == n;
      assert a[i] in b;
    }
    forall k | k in KeySet(a) ensures k in KeySet(b) {
      var i :| 0 <= i < |a| && Key(a[i]) == k;
      assert a[i] in b;
    }
    forall n | n in RelationshipNames(a) ensures n in RelationshipNames(b) {
      var i :| 0 <= i < |a| && a[i].objectType == Relationship && a[i].name == n;
      assert a[i] in b;
    }
    forall n | n in MeasureNames(a) ensures n in MeasureNames(b) {
      var i :| 0 <= i < |a| && a[i].objectType != Relationship && a[i].name == n;
      assert a[i] in b;
    }
  }

  lemma {:induction false} ChildrenSorted(all: seq<ComparisonObject>, t: Name, src: TM.Model, tgt: TM.Model)
    requires AllChildrenRight(all, t, src, tgt) && DistinctKeys(all, Key)
    ensures AllChildrenRight(SortBy(all, Key), t, src, tgt)
    ensures StrictlySorted(SortBy(all, Key), Key)
    ensures RelationshipNames(SortBy(all, Key)) == RelationshipNames(all)
    ensures MeasureNames(SortBy(all, Key)) == MeasureNames(all)
  {
    var cs := SortBy(all, Key);
    SortByStrict(all, Key);
    SortBySameElements(all);
    forall i | 0 <= i < |cs|
      ensures ChildRight(cs[i], TM.SideRelationships(src, t), TM.SideRelationships(tgt, t),
                         TM.SideMeasures(src, t), TM.SideMeasures(tgt, t), t in src.tables)
    {
      assert cs[i] in all;
    }
    SubElementsSets(cs, all);
    SubElementsSets(all, cs);
  }

  lemma ChildrenBuilt(rels: seq<ComparisonObject>, ms: seq<ComparisonObject>,
                      t: Name, src: TM.Model, tgt: TM.Model)
    requires CategoryDiffed(rels, Relationship, TM.SideRelationships(src, t), TM.SideRelationships(tgt, t), EqualDefinitions)
    requires MeasuresDiffed(ms, TM.SideMeasures(src, t), TM.SideMeasures(tgt, t), t in src.tables)
    ensures ChildrenRight(SortBy(rels + ms, Key), t, src, tgt)
  {
    ChildrenJoined(rels, ms, t, src, tgt);
    ChildrenSorted(rels + ms, t, src, tgt);
  }

  lemma TotalNodesSnoc(s: seq<ComparisonObject>, x: ComparisonObject)
    ensures TotalNodes(s + [x]) == TotalNodes(s) + 1 + |x.children|
  {
    assert (s + [x])[..|s|] == s;
  }

  /** The node of table n with the given children; the two passes of DiffTables
      call it for a source table and for a target-only table. */
  method DiffTable(src: TM.Model, tgt: TM.Model, n: Name, count0: nat)
    returns (c: ComparisonObject, count: nat)
    requires n in src.tables || n in tgt.tables
    ensures TableRight(c, src, tgt) && c.name == n
    ensures count == count0 + 1 + |c.children|
  {
    var status, action;
    if n !in tgt.tables {
      status, action := MissingInTarget, Create;
    } else if n !in src.tables {
      status, action := MissingInSource, Delete;
    } else if src.tables[n] == tgt.tables[n] {
      status, action := SameDefinition, Skip;
    } else {
      status, action := DifferentDefinitions, Update;
    }
    count := count0 + 1;
    // the relationships and measures of the table on each side where it exists;
    // the measures of a target-only table are typed Measure whatever their KPI flag
    var rels, ms;
    rels, count := DiffCategory(Relationship, TM.SideRelationships(src, n), TM.SideRelationships(tgt, n),
                                EqualDefinitions, count);
    ms, count := DiffMeasures(TM.SideMeasures(src, n), TM.SideMeasures(tgt, n), n in src.tables, count);
    ChildrenBuilt(rels, ms, n, src, tgt);
    c := ComparisonObject(Table, status, n, action, SortBy(rels + ms, Key));
  }

  /** Appends the node of table n, which is not yet in the list. */
  method AddTable(nodes: seq<ComparisonObject>, count: nat, src: TM.Model, tgt: TM.Model, n: Name, ghost count0: nat)
    returns (nodes': seq<ComparisonObject>, count': nat)
    requires n in src.tables || n in tgt.tables
    requires n !in Names(nodes) && DistinctNames(nodes) && AllTablesRight(nodes, src, tgt)
    requires count == count0 + TotalNodes(nodes)
    ensures DistinctNames(nodes') && Names(nodes') == Names(nodes) + {n}
    ensures AllTablesRight(nodes', src, tgt)
    ensures count' == count0 + TotalNodes(nodes')
  {
    var c;
    c, count' := DiffTable(src, tgt, n, count);
    FreshSnoc(nodes, c);
    TablesSnoc(nodes, c, src, tgt);
    TotalNodesSnoc(nodes, c);
    nodes' := nodes + [c];
  }

  /** The first pass over tables: every source table, matched or not. */
  method DiffSourceTables(src: TM.Model, tgt: TM.Model, count0: nat)
    returns (nodes: seq<ComparisonObject>, count: nat)
    ensures DistinctNames(nodes) && Names(nodes) == src.tables.Keys
    ensures AllTablesRight(nodes, src, tgt)
    ensures count == count0 + TotalNodes(nodes)
  {
    nodes, count := [], count0;
    var pending := src.tables.Keys;
    while pending != {}
      invariant pending <= src.tables.Keys
      invariant DistinctNames(nodes)
      invariant Names(nodes) == src.tables.Keys - pending
      invariant AllTablesRight(nodes, src, tgt)
      invariant count == count0 + TotalNodes(nodes)
      decreases pending
    {
      var n :| n in pending;
      PendingStep(src.tables.Keys, pending, n);
      nodes, count := AddTable(nodes, count, src, tgt, n, count0);
      pending := pending - {n};
    }
  }

  /** The second pass over tables: the tables found in the target only. */
  method DiffTargetOnlyTables(nodes0: seq<ComparisonObject>, count1: nat, src: TM.Model, tgt: TM.Model,
                              ghost count0: nat)
    returns (nodes: seq<ComparisonObject>, count: nat)
    requires DistinctNames(nodes0) && Names(nodes0) == src.tables.Keys
    requires AllTablesRight(nodes0, src, tgt)
    requires count1 == count0 + TotalNodes(nodes0)
    ensures TablesDiffed(nodes, src, tgt)
    ensures count == count0 + TotalNodes(nodes)
  {
    nodes, count := nodes0, count1;
    var pending := tgt.tables.Keys;
    while pending != {}
      invariant pending <= tgt.tables.Keys
      invariant DistinctNames(nodes)
      invariant Names(nodes) == src.tables.Keys + (tgt.tables.Keys - pending)
      invariant AllTablesRight(nodes, src, tgt)
      invariant count == count0 + TotalNodes(nodes)
      decreases pending
    {
      var n :| n in pending;
      PendingStepAfter(src.tables.Keys, tgt.tables.Keys, pending, n);
      nodes, count := VisitTargetTable(nodes, count, src, tgt, n, count0);
      pending := pending - {n};
    }
  }

  /** One table of the second pass: added unless the first pass already has it. */
  method VisitTargetTable(nodes: seq<ComparisonObject>, count: nat, src: TM.Model, tgt: TM.Model, n: Name,
                          ghost count0: nat)
    returns (nodes': seq<ComparisonObject>, count': nat)
    requires n in tgt.tables
    requires n in src.tables <==> n in Names(nodes)
    requires DistinctNames(nodes) && AllTablesRight(nodes, src, tgt)
    requires count == count0 + TotalNodes(nodes)
    ensures DistinctNames(nodes') && Names(nodes') == Names(nodes) + {n}
    ensures AllTablesRight(nodes', src, tgt)
    ensures count' == count0 + TotalNodes(nodes')
  {
    if n !in src.tables {
      nodes', count' := AddTable(nodes, count, src, tgt, n, count0);
    } else {
      nodes', count' := nodes, count;
    }
  }

  /** The two passes over tables, with the children of each table. */
  method DiffTables(src: TM.Model, tgt: TM.Model, count0: nat)
    returns (nodes: seq<ComparisonObject>, count: nat)
    ensures TablesDiffed(nodes, src, tgt)
    ensures count == count0 + TotalNodes(nodes)
  {
    nodes, count := DiffSourceTables(src, tgt, count0);
    nodes, count := DiffTargetOnlyTables(nodes, count, src, tgt, count0);
  }

  // ---------------------------------------------------------------------------
  // The whole forest

  ghost predicate Flat<T>(x: ComparisonObject, src: map<Name, T>, tgt: map<Name, T>, same: (T, T) -> bool) {
    (x.name in src || x.name in tgt) && x == Classify(x.objectType, x.name, src, tgt, same)
  }

  /** Node x is the one the differ emits for its type and name. Perspective,
      culture and role nodes exist only when their option is on. */
  ghost predicate TopRight(x: ComparisonObject, src: TM.Model, tgt: TM.Model, opt: OptionsInfo) {
    match x.objectType
    case Connection => Flat(x, src.connections, tgt.connections, EqualDefinitions)
    case Table => TableRight(x, src, tgt)
    case Expression => Flat(x, src.expressions, tgt.expressions, EqualDefinitions)
    case Perspective =>
      opt.optionPerspectives &&
      Flat(x, src.perspectives, tgt.perspectives, SameSelections(opt.optionMergePerspectives))
    case Culture =>
      opt.optionCultures && Flat(x, src.cultures, tgt.cultures, SameSelections(opt.optionMergeCultures))
    case Role => opt.optionRoles && Flat(x, src.roles, tgt.roles, EqualDefinitions)
    case _ => false
  }

  /** The types and names the differ covers: the three fixed categories, and
      perspectives, cultures and roles when their option is on. */
  predicate InScope(ty: ComparisonObjectType, n: Name, src: TM.Model, tgt: TM.Model, opt: OptionsInfo) {
    match ty
    case Connection => n in src.connections || n in tgt.connections
    case Table => n in src.tables || n in tgt.tables
    case Expression => n in src.expressions || n in tgt.expressions
    case Perspective => opt.optionPerspectives && (n in src.perspectives || n in tgt.perspectives)
    case Culture => opt.optionCultures && (n in src.cultures || n in tgt.cultures)
    case Role => opt.optionRoles && (n in src.roles || n in tgt.roles)
    case _ => false
  }

  /** The forest CompareTabularModels leaves behind: sorted by (type, name) with no
      key twice, every node the differ's node for its key, and a node for every
      type and name in scope. */
  ghost predicate ForestSpec(f: seq<ComparisonObject>, src: TM.Model, tgt: TM.Model, opt: OptionsInfo) {
    && StrictlySorted(f, Key)
    && (forall i :: 0 <= i < |f| ==> TopRight(f[i], src, tgt, opt))
    && (forall ty, n {:trigger InScope(ty, n, src, tgt, opt)} ::
          InScope(ty, n, src, tgt, opt) ==> SortKey(TypeRank(ty), n) in KeySet(f))
  }

  lemma TopRightInScope(x: ComparisonObject, src: TM.Model, tgt: TM.Model, opt: OptionsInfo)
    requires TopRight(x, src, tgt, opt)
    ensures InScope(x.objectType, x.name, src, tgt, opt)
  {
  }

  /** A forest under construction: distinct keys, every node right and of a type
      ranked below `bound`, every key in scope that is ranked below `bound` present. */
  ghost predicate Partial(nodes: seq<ComparisonObject>, src: TM.Model, tgt: TM.Model, opt: OptionsInfo, bound: int) {
    && DistinctKeys(nodes, Key)
    && (forall i :: 0 <= i < |nodes| ==>
          TopRight(nodes[i], src, tgt, opt) && TypeRank(nodes[i].objectType) < bound)
    && (forall ty, n {:trigger InScope(ty, n, src, tgt, opt)} :: TypeRank(ty) < bound && InScope(ty, n, src, tgt, opt) ==>
          SortKey(TypeRank(ty), n) in KeySet(nodes))
  }

  /** No type ranked from `lo` up to (not including) `hi` is in scope. */
  ghost predicate Gap(lo: int, hi: int, src: TM.Model, tgt: TM.Model, opt: OptionsInfo) {
    forall ty, n {:trigger InScope(ty, n, src, tgt, opt)} :: lo <= TypeRank(ty) < hi && InScope(ty, n, src, tgt, opt) ==> false
  }

  /** One category's nodes, ready to be appended: distinct names, every node the
      differ's node of that type for its name, and every name in scope covered. */
  ghost predicate PartOf(part: seq<ComparisonObject>, ty: ComparisonObjectType,
                         src: TM.Model, tgt: TM.Model, opt: OptionsInfo) {
    && DistinctNames(part)
    && (forall i :: 0 <= i < |part| ==> part[i].objectType == ty && TopRight(part[i], src, tgt, opt))
    && (forall n :: InScope(ty, n, src, tgt, opt) ==> n in Names(part))
  }

  lemma {:induction false} AddPart(nodes: seq<ComparisonObject>, part: seq<ComparisonObject>,
                                   src: TM.Model, tgt: TM.Model, opt: OptionsInfo,
                                   bound: int, ty: ComparisonObjectType)
    requires Partial(nodes, src, tgt, opt, bound) && bound <= TypeRank(ty) && Gap(bound, TypeRank(ty), src, tgt, opt)
    requires PartOf(part, ty, src, tgt, opt)
    ensures Partial(nodes + part, src, tgt, opt, TypeRank(ty) + 1)
  {
    var u := nodes + part;
    KeySetAppend(nodes, part);
    forall i, j | 0 <= i < j < |u| ensures Key(u[i]) != Key(u[j]) {
      if j < |nodes| {
        assert u[i] == nodes[i] && u[j] == nodes[j];
      } else if i >= |nodes| {
        assert u[i] == part[i - |nodes|] && u[j] == part[j - |nodes|];
      } else {
        assert u[i] == nodes[i] && u[j] == part[j - |nodes|];
      }
    }
    forall i | 0 <= i < |u| ensures TopRight(u[i], src, tgt, opt) && TypeRank(u[i].objectType) < TypeRank(ty) + 1 {
      if i < |nodes| { assert u[i] == nodes[i]; } else { assert u[i] == part[i - |nodes|]; }
    }
    forall ty', n | TypeRank(ty') < TypeRank(ty) + 1 && InScope(ty', n, src, tgt, opt)
      ensures SortKey(TypeRank(ty'), n) in KeySet(u)
    {
      if TypeRank(ty') == TypeRank(ty) {
        TypeRankInjective(ty', ty);
        var i :| 0 <= i < |part| && part[i].name == n;
        assert Key(part[i]) == SortKey(TypeRank(ty'), n);
      } else if TypeRank(ty') < bound {
        assert SortKey(TypeRank(ty'), n) in KeySet(nodes);
      }
    }
  }

  function DefinitionsOf(m: TM.Model, ty: ComparisonObjectType): map<Name, TM.Definition> {
    if ty == Connection then m.connections else if ty == Expression then m.expressions else m.roles
  }

  function SelectionsOf(m: TM.Model, ty: ComparisonObjectType): map<Name, TM.Selections> {
    if ty == Perspective then m.perspectives else m.cultures
  }

  function MergeFlag(opt: OptionsInfo, ty: ComparisonObjectType): bool {
    if ty == Perspective then opt.optionMergePerspectives else opt.optionMergeCultures
  }

  /** The nodes of one category are its flat nodes. */
  lemma FlatPart<T>(part: seq<ComparisonObject>, ty: ComparisonObjectType,
                    sm: map<Name, T>, tm: map<Name, T>, same: (T, T) -> bool)
    requires CategoryDiffed(part, ty, sm, tm, same)
    ensures forall i :: 0 <= i < |part| ==> part[i].objectType == ty && Flat(part[i], sm, tm, same)
    ensures forall n :: n in sm || n in tm ==> n in Names(part)
    ensures TotalNodes(part) == |part|
  {
    forall i | 0 <= i < |part| ensures part[i].children == [] {
      ClassifyRule(ty, part[i].name, sm, tm, same);
    }
    TotalNodesFlat(part);
    forall i | 0 <= i < |part| ensures part[i].objectType == ty && Flat(part[i], sm, tm, same) {
      ClassifyRule(ty, part[i].name, sm, tm, same);
    }
  }

  /** The nodes of a category compared by definition are right top-level nodes. */
  lemma DefinitionsPart(part: seq<ComparisonObject>, ty: ComparisonObjectType,
                        src: TM.Model, tgt: TM.Model, opt: OptionsInfo)
    requires ty == Connection || ty == Expression || (ty == Role && opt.optionRoles)
    requires CategoryDiffed(part, ty, DefinitionsOf(src, ty), DefinitionsOf(tgt, ty), EqualDefinitions)
    ensures PartOf(part, ty, src, tgt, opt)
    ensures TotalNodes(part) == |part|
  {
    if ty == Connection {
      ConnectionsPart(part, src, tgt, opt);
    } else if ty == Expression {
      ExpressionsPart(part, src, tgt, opt);
    } else {
      RolesPart(part, src, tgt, opt);
    }
  }

  lemma ConnectionsPart(part: seq<ComparisonObject>, src: TM.Model, tgt: TM.Model, opt: OptionsInfo)
    requires CategoryDiffed(part, Connection, src.connections, tgt.connections, EqualDefinitions)
    ensures PartOf(part, Connection, src, tgt, opt)
    ensures TotalNodes(part) == |part|
  {
    FlatPart(part, Connection, src.connections, tgt.connections, EqualDefinitions);
    forall i | 0 <= i < |part| ensures part[i].objectType == Connection && TopRight(part[i], src, tgt, opt) {
      assert Flat(part[i], src.connections, tgt.connections, EqualDefinitions);
    }
    forall n | InScope(Connection, n, src, tgt, opt) ensures n in Names(part) {
      assert n in src.connections || n in tgt.connections;
    }
  }

  lemma ExpressionsPart(part: seq<ComparisonObject>, src: TM.Model, tgt: TM.Model, opt: OptionsInfo)
    requires CategoryDiffed(part, Expression, src.expressions, tgt.expressions, EqualDefinitions)
    ensures PartOf(part, Expression, src, tgt, opt)
    ensures TotalNodes(part) == |part|
  {
    FlatPart(part, Expression, src.expressions, tgt.expressions, EqualDefinitions);
    forall i | 0 <= i < |part| ensures part[i].objectType == Expression && TopRight(part[i], src, tgt, opt) {
      assert Flat(part[i], src.expressions, tgt.expressions, EqualDefinitions);
    }
    forall n | InScope(Expression, n, src, tgt, opt) ensures n in Names(part) {
      assert n in src.expressions || n in tgt.expressions;
    }
  }

  lemma RolesPart(part: seq<ComparisonObject>, src: TM.Model, tgt: TM.Model, opt: OptionsInfo)
    requires opt.optionRoles
    requires CategoryDiffed(part, Role, src.roles, tgt.roles, EqualDefinitions)
    ensures PartOf(part, Role, src, tgt, opt)
    ensures TotalNodes(part) == |part|
  {
    FlatPart(part, Role, src.roles, tgt.roles, EqualDefinitions);
    forall i | 0 <= i < |part| ensures part[i].objectType == Role && TopRight(part[i], src, tgt, opt) {
      assert Flat(part[i], src.roles, tgt.roles, EqualDefinitions);
    }
    forall n | InScope(Role, n, src, tgt, opt) ensures n in Names(part) {
      assert n in src.roles || n in tgt.roles;
    }
  }

  /** The nodes of an enabled perspective or culture category are right top-level nodes. */
  lemma SelectionsPart(part: seq<ComparisonObject>, ty: ComparisonObjectType,
                       src: TM.Model, tgt: TM.Model, opt: OptionsInfo)
    requires (ty == Perspective && opt.optionPerspectives) || (ty == Culture && opt.optionCultures)
    requires CategoryDiffed(part, ty, SelectionsOf(src, ty), SelectionsOf(tgt, ty), SameSelections(MergeFlag(opt, ty)))
    ensures PartOf(part, ty, src, tgt, opt)
    ensures TotalNodes(part) == |part|
  {
    if ty == Perspective {
      PerspectivesPart(part, src, tgt, opt);
    } else {
      CulturesPart(part, src, tgt, opt);
    }
  }

  lemma PerspectivesPart(part: seq<ComparisonObject>, src: TM.Model, tgt: TM.Model, opt: OptionsInfo)
    requires opt.optionPerspectives
    requires CategoryDiffed(part, Perspective, src.perspectives, tgt.perspectives,
                            SameSelections(opt.optionMergePerspectives))
    ensures PartOf(part, Perspective, src, tgt, opt)
    ensures TotalNodes(part) == |part|
  {
    FlatPart(part, Perspective, src.perspectives, tgt.perspectives, SameSelections(opt.optionMergePerspectives));
    forall i | 0 <= i < |part| ensures part[i].objectType == Perspective && TopRight(part[i], src, tgt, opt) {
      assert Flat(part[i], src.perspectives, tgt.perspectives, SameSelections(opt.optionMergePerspectives));
    }
    forall n | InScope(Perspective, n, src, tgt, opt) ensures n in Names(part) {
      assert n in src.perspectives || n in tgt.perspectives;
    }
  }

  lemma CulturesPart(part: seq<ComparisonObject>, src: TM.Model, tgt: TM.Model, opt: OptionsInfo)
    requires opt.optionCultures
    requires CategoryDiffed(part, Culture, src.cultures, tgt.cultures, SameSelections(opt.optionMergeCultures))
    ensures PartOf(part, Culture, src, tgt, opt)
    ensures TotalNodes(part) == |part|
  {
    FlatPart(part, Culture, src.cultures, tgt.cultures, SameSelections(opt.optionMergeCultures));
    forall i | 0 <= i < |part| ensures part[i].objectType == Culture && TopRight(part[i], src, tgt, opt) {
      assert Flat(part[i], src.cultures, tgt.cultures, SameSelections(opt.optionMergeCultures));
    }
    forall n | InScope(Culture, n, src, tgt, opt) ensures n in Names(part) {
      assert n in src.cultures || n in tgt.cultures;
    }
  }

  lemma TablesPart(part: seq<ComparisonObject>, src: TM.Model, tgt: TM.Model, opt: OptionsInfo)
    requires TablesDiffed(part, src, tgt)
    ensures PartOf(part, Table, src, tgt, opt)
  {
    forall i | 0 <= i < |part| ensures part[i].objectType == Table && TopRight(part[i], src, tgt, opt) {
      AllTablesRightAt(part, src, tgt, i);
    }
  }

  /** Sorting a finished forest establishes ForestSpec and keeps the node count. */
  lemma FinishForest(all: seq<ComparisonObject>, src: TM.Model, tgt: TM.Model, opt: OptionsInfo)
    requires Partial(all, src, tgt, opt, TypeRank(Role) + 1)
    ensures ForestSpec(SortBy(all, Key), src, tgt, opt)
    ensures TotalNodes(SortBy(all, Key)) == TotalNodes(all)
  {
    var f := SortBy(all, Key);
    SortByStrict(all, Key);
    TotalNodesSort(all);
    SortBySameElements(all);
    forall i | 0 <= i < |f| ensures TopRight(f[i], src, tgt, opt) {
      assert f[i] in all;
    }
    SubElementsSets(all, f);
    forall ty, n | InScope(ty, n, src, tgt, opt) ensures SortKey(TypeRank(ty), n) in KeySet(f) {
      TypeRankRange(ty);
    }
  }

  /** Appends the nodes of a category compared by definition. */
  method AppendDefinitions(all: seq<ComparisonObject>, count0: nat, ty: ComparisonObjectType,
                           src: TM.Model, tgt: TM.Model, opt: OptionsInfo, ghost bound: int)
    returns (all': seq<ComparisonObject>, count: nat)
    requires ty == Connection || ty == Expression || (ty == Role && opt.optionRoles)
    requires Partial(all, src, tgt, opt, bound) && bound <= TypeRank(ty) && Gap(bound, TypeRank(ty), src, tgt, opt)
    requires count0 == TotalNodes(all)
    ensures Partial(all', src, tgt, opt, TypeRank(ty) + 1)
    ensures count == TotalNodes(all')
  {
    var part;
    part, count := DiffCategory(ty, DefinitionsOf(src, ty), DefinitionsOf(tgt, ty), EqualDefinitions, count0);
    DefinitionsPart(part, ty, src, tgt, opt);
    AddPart(all, part, src, tgt, opt, bound, ty);
    TotalNodesAppend(all, part);
    all' := all + part;
  }

  /** Appends the nodes of an enabled perspective or culture category. */
  method AppendSelections(all: seq<ComparisonObject>, count0: nat, ty: ComparisonObjectType,
                          src: TM.Model, tgt: TM.Model, opt: OptionsInfo, ghost bound: int)
    returns (all': seq<ComparisonObject>, count: nat)
    requires (ty == Perspective && opt.optionPerspectives) || (ty == Culture && opt.optionCultures)
    requires Partial(all, src, tgt, opt, bound) && bound <= TypeRank(ty) && Gap(bound, TypeRank(ty), src, tgt, opt)
    requires count0 == TotalNodes(all)
    ensures Partial(all', src, tgt, opt, TypeRank(ty) + 1)
    ensures count == TotalNodes(all')
  {
    var part;
    part, count := DiffCategory(ty, SelectionsOf(src, ty), SelectionsOf(tgt, ty),
                                SameSelections(MergeFlag(opt, ty)), count0);
    SelectionsPart(part, ty, src, tgt, opt);
    AddPart(all, part, src, tgt, opt, bound, ty);
    TotalNodesAppend(all, part);
    all' := all + part;
  }

  method AppendTables(all: seq<ComparisonObject>, count0: nat, src: TM.Model, tgt: TM.Model, opt: OptionsInfo)
    returns (all': seq<ComparisonObject>, count: nat)
    requires Partial(all, src, tgt, opt, TypeRank(Table)) && count0 == TotalNodes(all)
    ensures Partial(all', src, tgt, opt, TypeRank(Table) + 1)
    ensures count == TotalNodes(all')
  {
    var part;
    part, count := DiffTables(src, tgt, count0);
    TablesPart(part, src, tgt, opt);
    AddPart(all, part, src, tgt, opt, TypeRank(Table), Table);
    TotalNodesAppend(all, part);
    all' := all + part;
  }

  predicate Enabled(opt: OptionsInfo, ty: ComparisonObjectType) {
    (ty == Perspective && opt.optionPerspectives) || (ty == Culture && opt.optionCultures) ||
    (ty == Role && opt.optionRoles)
  }

  /** Appends the nodes of perspectives, cultures or roles when their option is on. */
  method AppendOptional(all: seq<ComparisonObject>, count0: nat, ty: ComparisonObjectType,
                        src: TM.Model, tgt: TM.Model, opt: OptionsInfo, ghost bound: int)
    returns (all': seq<ComparisonObject>, count: nat)
    requires ty == Perspective || ty == Culture || ty == Role
    requires bound == TypeRank(ty)
    requires Partial(all, src, tgt, opt, bound) && count0 == TotalNodes(all)
    ensures Partial(all', src, tgt, opt, bound + 1)
    ensures count == TotalNodes(all')
  {
    if !Enabled(opt, ty) {
      all', count := all, count0;
      forall ty', n | TypeRank(ty') < TypeRank(ty) + 1 && InScope(ty', n, src, tgt, opt)
        ensures SortKey(TypeRank(ty'), n) in KeySet(all)
      {
        TypeRankInjective(ty', ty);
      }
    } else if ty == Role {
      all', count := AppendDefinitions(all, count0, Role, src, tgt, opt, TypeRank(Role));
    } else {
      all', count := AppendSelections(all, count0, ty, src, tgt, opt, TypeRank(ty));
    }
  }

  /** Connections, tables and expressions, in the order of the original. */
  method DiffFixed(src: TM.Model, tgt: TM.Model, opt: OptionsInfo)
    returns (all: seq<ComparisonObject>, count: nat)
    ensures Partial(all, src, tgt, opt, TypeRank(Expression) + 1)
    ensures count == TotalNodes(all)
  {
    all, count := AppendDefinitions([], 0, Connection, src, tgt, opt, 0);
    all, count := AppendTables(all, count, src, tgt, opt);
    all, count := AppendDefinitions(all, count, Expression, src, tgt, opt, TypeRank(Table) + 1);
  }

  /** Perspectives, cultures and roles, each only when its option is on. */
  method DiffOptional(all: seq<ComparisonObject>, count0: nat, src: TM.Model, tgt: TM.Model, opt: OptionsInfo)
    returns (all': seq<ComparisonObject>, count: nat)
    requires Partial(all, src, tgt, opt, TypeRank(Perspective)) && count0 == TotalNodes(all)
    ensures Partial(all', src, tgt, opt, TypeRank(Role) + 1)
    ensures count == TotalNodes(all')
  {
    ghost var bound := TypeRank(Perspective);
    all', count := AppendOptional(all, count0, Perspective, src, tgt, opt, bound);
    all', count := AppendOptional(all', count, Culture, src, tgt, opt, bound + 1);
    all', count := AppendOptional(all', count, Role, src, tgt, opt, bound + 2);
  }

  /** The whole diff of two models: every category in the order of the original,
      the optional ones only when enabled, then the sort. */
  method DiffModels(src: TM.Model, tgt: TM.Model, opt: OptionsInfo)
    returns (forest: seq<ComparisonObject>, count: nat)
    ensures ForestSpec(forest, src, tgt, opt)
    ensures count == TotalNodes(forest)
  {
    var all;
    all, count := DiffFixed(src, tgt, opt);
    all, count := DiffOptional(all, count, src, tgt, opt);
    FinishForest(all, src, tgt, opt);
    forest := SortBy(all, Key);
  }

  lemma {:induction false} TotalNodesFlat(s: seq<ComparisonObject>)
    requires forall i :: 0 <= i < |s| ==> s[i].children == []
    ensures TotalNodes(s) == |s|
    decreases |s|
  {
    if s != [] {
      TotalNodesFlat(s[..|s| - 1]);
    }
  }

  // ---------------------------------------------------------------------------
  // Properties of the forest

  lemma ChildShapedOf(c: ComparisonObject,
                      sr: map<Name, TM.Relationship>, tr: map<Name, TM.Relationship>,
                      sm: map<Name, TM.Measure>, tm: map<Name, TM.Measure>, typed: bool)
    requires ChildRight(c, sr, tr, sm, tm, typed)
    ensures ChildShaped(c)
  {
    if c.objectType != Relationship {
      var n := c.name;
      assert c.objectType == Measure || (n in sm && c.objectType == MeasureType(sm[n]))
          || (n in tm && c.objectType == MeasureType(tm[n]));
    }
  }

  lemma NodeShapedOf(x: ComparisonObject, src: TM.Model, tgt: TM.Model, opt: OptionsInfo)
    requires TopRight(x, src, tgt, opt)
    ensures NodeShaped(x)
  {
    if x.objectType == Table {
      var t := x.name;
      forall j | 0 <= j < |x.children| ensures ChildShaped(x.children[j]) {
        ChildShapedOf(x.children[j], TM.SideRelationships(src, t), TM.SideRelationships(tgt, t),
                      TM.SideMeasures(src, t), TM.SideMeasures(tgt, t), t in src.tables);
      }
    }
  }

  /** The forest has the shape the merge phases rely on. */
  lemma ForestWellShaped(f: seq<ComparisonObject>, src: TM.Model, tgt: TM.Model, opt: OptionsInfo)
    requires ForestSpec(f, src, tgt, opt)
    ensures WellShaped(f)
  {
    forall i | 0 <= i < |f| ensures NodeShaped(f[i]) {
      NodeShapedOf(f[i], src, tgt, opt);
    }
  }

  lemma TypeRankRange(ty: ComparisonObjectType)
    ensures 0 <= TypeRank(ty) <= TypeRank(Role)
  {
  }

  lemma TypeRankInjective(a: ComparisonObjectType, b: ComparisonObjectType)
    ensures TypeRank(a) == TypeRank(b) <==> a == b
  {
  }

  /** Coverage: there is a node for (ty, n) exactly when n is in scope for ty, and
      never more than one. */
  lemma {:induction false} ForestCoverage(f: seq<ComparisonObject>, src: TM.Model, tgt: TM.Model, opt: OptionsInfo,
                                          ty: ComparisonObjectType, n: Name)
    requires ForestSpec(f, src, tgt, opt)
    ensures (exists i :: 0 <= i < |f| && f[i].objectType == ty && f[i].name == n) <==> InScope(ty, n, src, tgt, opt)
    ensures forall i, j ::
              (0 <= i < |f| && 0 <= j < |f| && f[i].objectType == ty && f[i].name == n &&
               f[j].objectType == ty && f[j].name == n) ==> i == j
  {
    if InScope(ty, n, src, tgt, opt) {
      ForestComplete(f, src, tgt, opt, ty, n);
    }
    if exists i :: 0 <= i < |f| && f[i].objectType == ty && f[i].name == n {
      var i :| 0 <= i < |f| && f[i].objectType == ty && f[i].name == n;
      TopRightInScope(f[i], src, tgt, opt);
    }
    ForestUnique(f, ty, n);
  }

  lemma ForestComplete(f: seq<ComparisonObject>, src: TM.Model, tgt: TM.Model, opt: OptionsInfo,
                       ty: ComparisonObjectType, n: Name)
    requires ForestSpec(f, src, tgt, opt) && InScope(ty, n, src, tgt, opt)
    ensures exists i :: 0 <= i < |f| && f[i].objectType == ty && f[i].name == n
  {
    var k := SortKey(TypeRank(ty), n);
    assert k in KeySet(f);
    var i :| 0 <= i < |f| && Key(f[i]) == k;
    TypeRankInjective(f[i].objectType, ty);
  }

  lemma ForestUnique(f: seq<ComparisonObject>, ty: ComparisonObjectType, n: Name)
    requires StrictlySorted(f, Key)
    ensures forall i, j ::
              (0 <= i < |f| && 0 <= j < |f| && f[i].objectType == ty && f[i].name == n &&
               f[j].objectType == ty && f[j].name == n) ==> i == j
  {
    StrictImpliesDistinct(f, Key);
  }

  /** Two child lists that are both right for table t are the same list. */
  lemma {:induction false} ChildrenUnique(cs: seq<ComparisonObject>, ds: seq<ComparisonObject>,
                                          t: Name, src: TM.Model, tgt: TM.Model)
    requires ChildrenRight(cs, t, src, tgt) && ChildrenRight(ds, t, src, tgt)
    ensures cs == ds
  {
    var sr, tr := TM.SideRelationships(src, t), TM.SideRelationships(tgt, t);
    var sm, tm := TM.SideMeasures(src, t), TM.SideMeasures(tgt, t);
    var typed := t in src.tables;
    forall a: seq<ComparisonObject>, b: seq<ComparisonObject> | ChildrenRight(a, t, src, tgt) && ChildrenRight(b, t, src, tgt)
      ensures forall x :: x in a ==> x in b
    {
      forall x | x in a ensures x in b {
        var i :| 0 <= i < |a| && a[i] == x;
        assert ChildRight(x, sr, tr, sm, tm, typed);
        if x.objectType == Relationship {
          assert x.name in RelationshipNames(a);
          var j :| 0 <= j < |b| && b[j].objectType == Relationship && b[j].name == x.name;
          assert ChildRight(b[j], sr, tr, sm, tm, typed);
        } else {
          assert x.name in MeasureNames(a);
          var j :| 0 <= j < |b| && b[j].objectType != Relationship && b[j].name == x.name;
          assert ChildRight(b[j], sr, tr, sm, tm, typed);
        }
      }
    }
    StrictlySortedUnique(cs, ds, Key);
  }

  /** A node is determined by its key. */
  lemma TopRightUnique(x: ComparisonObject, y: ComparisonObject, src: TM.Model, tgt: TM.Model, opt: OptionsInfo)
    requires TopRight(x, src, tgt, opt) && TopRight(y, src, tgt, opt) && Key(x) == Key(y)
    ensures x == y
  {
    TypeRankInjective(x.objectType, y.objectType);
    if x.objectType == Table {
      ChildrenUnique(x.children, y.children, x.name, src, tgt);
      assert x == x.(children := []).(children := x.children);
    }
  }

  /** Determinism: the forest is fixed by the two models and the options, whatever
      order the categories' names are visited in. */
  lemma ForestDeterministic(f: seq<ComparisonObject>, g: seq<ComparisonObject>,
                            src: TM.Model, tgt: TM.Model, opt: OptionsInfo)
    requires ForestSpec(f, src, tgt, opt) && ForestSpec(g, src, tgt, opt)
    ensures f == g
  {
    forall a: seq<ComparisonObject>, b: seq<ComparisonObject> | ForestSpec(a, src, tgt, opt) && ForestSpec(b, src, tgt, opt)
      ensures forall x :: x in a ==> x in b
    {
      forall x | x in a ensures x in b {
        var i :| 0 <= i < |a| && a[i] == x;
        TopRightInScope(x, src, tgt, opt);
        assert Key(x) in KeySet(b);
        var j :| 0 <= j < |b| && Key(b[j]) == Key(x);
        TopRightUnique(x, b[j], src, tgt, opt);
      }
    }
    StrictlySortedUnique(f, g, Key);
  }

  /** Comparing a model with itself finds nothing to do: every node and every
      child has the same definition and the Skip action. */
  lemma ForestOfIdenticalModels(f: seq<ComparisonObject>, m: TM.Model, opt: OptionsInfo)
    requires ForestSpec(f, m, m, opt)
    ensures forall i :: 0 <= i < |f| ==> f[i].status == SameDefinition && f[i].mergeAction == Skip
    ensures forall i, j :: 0 <= i < |f| && 0 <= j < |f[i].children| ==>
              f[i].children[j].status == SameDefinition && f[i].children[j].mergeAction == Skip
  {
    forall i | 0 <= i < |f|
      ensures f[i].status == SameDefinition && f[i].mergeAction == Skip
      ensures forall j :: 0 <= j < |f[i].children| ==>
                f[i].children[j].status == SameDefinition && f[i].children[j].mergeAction == Skip
    {
      var x := f[i];
      assert TopRight(x, m, m, opt);
      if x.objectType == Table {
        var t := x.name;
        forall j | 0 <= j < |x.children|
          ensures x.children[j].status == SameDefinition && x.children[j].mergeAction == Skip
        {
          assert ChildRight(x.children[j], TM.SideRelationships(m, t), TM.SideRelationships(m, t),
                            TM.SideMeasures(m, t), TM.SideMeasures(m, t), t in m.tables);
        }
      }
    }
  }

  /** The children of a table missing in the target: every relationship and measure
      of the source table, all missing in target with the Create action, measures
      typed by their own KPI flag. */
  lemma ChildrenOfCreatedTable(f: seq<ComparisonObject>, src: TM.Model, tgt: TM.Model, opt: OptionsInfo, i: int)
    requires ForestSpec(f, src, tgt, opt) && 0 <= i < |f|
    requires f[i].objectType == Table && f[i].status == MissingInTarget
    ensures f[i].name in src.tables && f[i].name !in tgt.tables
    ensures RelationshipNames(f[i].children) == TM.RelationshipsOf(src, f[i].name).Keys
    ensures MeasureNames(f[i].children) == TM.MeasuresOf(src, f[i].name).Keys
    ensures forall j :: 0 <= j < |f[i].children| ==>
              f[i].children[j].status == MissingInTarget && f[i].children[j].mergeAction == Create
    ensures forall j :: 0 <= j < |f[i].children| && f[i].children[j].objectType != Relationship ==>
              f[i].children[j].name in src.measures &&
              f[i].children[j].objectType == MeasureType(src.measures[f[i].children[j].name])
  {
    var x := f[i];
    var t := x.name;
    assert TopRight(x, src, tgt, opt);
    forall j | 0 <= j < |x.children|
      ensures x.children[j].status == MissingInTarget && x.children[j].mergeAction == Create
      ensures x.children[j].objectType != Relationship ==>
                x.children[j].name in src.measures &&
                x.children[j].objectType == MeasureType(src.measures[x.children[j].name])
    {
      assert ChildRight(x.children[j], TM.SideRelationships(src, t), TM.SideRelationships(tgt, t),
                        TM.SideMeasures(src, t), TM.SideMeasures(tgt, t), t in src.tables);
    }
  }

  /** The children of a table missing in the source: every relationship and measure
      of the target table, all missing in source with the Delete action. As
      written, such a measure is typed Measure even when it is a KPI. */
  lemma ChildrenOfDeletedTable(f: seq<ComparisonObject>, src: TM.Model, tgt: TM.Model, opt: OptionsInfo, i: int)
    requires ForestSpec(f, src, tgt, opt) && 0 <= i < |f|
    requires f[i].objectType == Table && f[i].status == MissingInSource
    ensures f[i].name !in src.tables && f[i].name in tgt.tables
    ensures RelationshipNames(f[i].children) == TM.RelationshipsOf(tgt, f[i].name).Keys
    ensures MeasureNames(f[i].children) == TM.MeasuresOf(tgt, f[i].name).Keys
    ensures forall j :: 0 <= j < |f[i].children| ==>
              f[i].children[j].status == MissingInSource && f[i].children[j].mergeAction == Delete &&
              f[i].children[j].objectType in {Relationship, Measure}
  {
    var x := f[i];
    var t := x.name;
    assert TopRight(x, src, tgt, opt);
    forall j | 0 <= j < |x.children|
      ensures x.children[j].status == MissingInSource && x.children[j].mergeAction == Delete &&
              x.children[j].objectType in {Relationship, Measure}
    {
      assert ChildRight(x.children[j], TM.SideRelationships(src, t), TM.SideRelationships(tgt, t),
                        TM.SideMeasures(src, t), TM.SideMeasures(tgt, t), t in src.tables);
    }
  }

  /** The measure children of a table on both sides: a KPI node exactly when the
      measure is a KPI on the source side, or, absent there, on the target side. */
  lemma MeasuresOfMatchedTable(f: seq<ComparisonObject>, src: TM.Model, tgt: TM.Model, opt: OptionsInfo, i: int)
    requires ForestSpec(f, src, tgt, opt) && 0 <= i < |f|
    requires f[i].objectType == Table && f[i].name in src.tables && f[i].name in tgt.tables
    ensures RelationshipNames(f[i].children) ==
              TM.RelationshipsOf(src, f[i].name).Keys + TM.RelationshipsOf(tgt, f[i].name).Keys
    ensures MeasureNames(f[i].children) == TM.MeasuresOf(src, f[i].name).Keys + TM.MeasuresOf(tgt, f[i].name).Keys
    ensures forall j :: 0 <= j < |f[i].children| && f[i].children[j].objectType != Relationship ==>
              var n := f[i].children[j].name;
              (n in src.measures || n in tgt.measures) &&
              (f[i].children[j].objectType == Kpi <==>
                 if n in TM.MeasuresOf(src, f[i].name) then src.measures[n].isKpi else tgt.measures[n].isKpi)
  {
    var x := f[i];
    var t := x.name;
    assert TopRight(x, src, tgt, opt);
    forall j | 0 <= j < |x.children| && x.children[j].objectType != Relationship
      ensures var n := x.children[j].name;
              (n in src.measures || n in tgt.measures) &&
              (x.children[j].objectType == Kpi <==>
                 if n in TM.MeasuresOf(src, t) then src.measures[n].isKpi else tgt.measures[n].isKpi)
    {
      assert ChildRight(x.children[j], TM.SideRelationships(src, t), TM.SideRelationships(tgt, t),
                        TM.SideMeasures(src, t), TM.SideMeasures(tgt, t), t in src.tables);
    }
  }
}
