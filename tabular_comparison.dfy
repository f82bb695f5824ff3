/** The comparison object of a tabular model pair: it runs the diff, validates the
    selected actions against the target phase by phase, and lists the tables to
    process. Its methods are proved against the functions of the Differ, Dependencies
    and Apply modules. */
module TabularComparison {
  import TM = TabularModel
  import opened Ordering
  import opened ComparisonObjects
  import opened Dependencies
  import opened Differ
  import opened Apply
  import AP = ApplyProperties
  import HR = HelperRules
  import opened Processing

  /** How ValidateSelection ends: it runs; it stops because a side changed on
      the server since the comparison; or it fails because a node to create or
      update names an object the refreshed source no longer has. */
  datatype ValidationOutcome = Validated | SourceChanged | TargetChanged | SourceObjectMissing

  /** A side is stale when it is a live database whose schema changed since the comparison. */
  predicate Stale(now: TM.Model, captured: nat) {
    !now.useProject && now.lastSchemaUpdate > captured
  }

  /** Every node the differ emits is a top-level node whose source object exists. */
  lemma ForestApplicable(f: seq<ComparisonObject>, src: TM.Model, tgt: TM.Model, opt: OptionsInfo)
    requires ForestSpec(f, src, tgt, opt)
    ensures Applicable(f, src)
  {
    forall i | 0 <= i < |f| ensures IsTopType(f[i].objectType) && SourceBacked(f[i], src) {
      var x := f[i];
      assert TopRight(x, src, tgt, opt);
      match x.objectType
      case Connection => ClassifyRule(Connection, x.name, src.connections, tgt.connections, EqualDefinitions);
      case Table => ClassifyRule(Table, x.name, src.tables, tgt.tables, EqualDefinitions);
      case Expression => ClassifyRule(Expression, x.name, src.expressions, tgt.expressions, EqualDefinitions);
      case Perspective =>
        ClassifyRule(Perspective, x.name, src.perspectives, tgt.perspectives, SameSelections(opt.optionMergePerspectives));
      case Culture =>
        ClassifyRule(Culture, x.name, src.cultures, tgt.cultures, SameSelections(opt.optionMergeCultures));
      case Role => ClassifyRule(Role, x.name, src.roles, tgt.roles, EqualDefinitions);
      case _ =>
    }
  }

  lemma TakeOfTake<T>(s: seq<T>, i: nat)
    requires i < |s|
    ensures s[..i + 1][..i] == s[..i]
  {
  }

  lemma TakeAll<T>(s: seq<T>)
    ensures s[..|s|] == s
  {
  }

  /** Every prefix of an applicable forest is applicable. */
  lemma ApplicablePrefix(forest: seq<ComparisonObject>, src: TM.Model, i: nat)
    requires Applicable(forest, src) && i <= |forest|
    ensures Applicable(forest[..i], src)
  {
    forall k | 0 <= k < i ensures forest[..i][k] == forest[k] { }
  }

  /** What DeleteConnection gathers are the connection's blockers. */
  lemma ConnectionBlockersFound(w: seq<WarningItem>, parts: set<WarningItem>, target: TM.Model,
                                forest: seq<ComparisonObject>, name: Name)
    requires w == [] + ToWarnings(TM.DependenciesReferenceTo(target.dependencies, TM.ConnectionObject, name), forest)
    requires parts == QueryPartitionItems(target, name)
    ensures AsSet(w) + parts == ConnectionBlockers(target, forest, name)
    ensures (w == [] && parts == {}) <==> ConnectionBlockers(target, forest, name) == {}
  {
    assert w == ToWarnings(TM.DependenciesReferenceTo(target.dependencies, TM.ConnectionObject, name), forest);
    HR.AsSetEmpty(w);
  }

  /** The list after a comparison holds the nodes it held before plus a forest of
      the two models, and the count is that forest's node count alone. */
  ghost predicate Rediffed(before: seq<ComparisonObject>, f: seq<ComparisonObject>, n: nat,
                           src: TM.Model, tgt: TM.Model, opt: OptionsInfo) {
    exists g :: ForestSpec(g, src, tgt, opt) && n == TotalNodes(g) && multiset(f) == multiset(before) + multiset(g)
  }

  /** The diff's append-then-sort: the nodes of the new comparison are added to
      those already in the list, the count is that of the new nodes alone, and the
      whole list is sorted. */
  method Rediff(before: seq<ComparisonObject>, src: TM.Model, tgt: TM.Model, opt: OptionsInfo)
    returns (f: seq<ComparisonObject>, n: nat)
    ensures Rediffed(before, f, n, src, tgt, opt)
    ensures Sorted(f, Key)
    ensures before == [] ==> ForestSpec(f, src, tgt, opt) && n == TotalNodes(f)
    ensures forall x :: x in before ==> x in f
    ensures forall x :: x in f ==> x in before || TopRight(x, src, tgt, opt)
  {
    var all;
    all, n := DiffFixed(src, tgt, opt);
    all, n := DiffOptional(all, n, src, tgt, opt);
    FinishForest(all, src, tgt, opt);
    f := SortBy(before + all, Key);
    SortKeeps(before, all);
    NewNodesRight(before, all, src, tgt, opt);
    SortBySorted(before + all, Key);
    ghost var g := SortBy(all, Key);
    assert ForestSpec(g, src, tgt, opt) && n == TotalNodes(g) && multiset(f) == multiset(before) + multiset(g);
    if before == [] {
      EmptyConcat(all);
    }
  }

  /** A node of the sorted list that was not there before is a node of the diff. */
  lemma NewNodesRight(before: seq<ComparisonObject>, all: seq<ComparisonObject>,
                      src: TM.Model, tgt: TM.Model, opt: OptionsInfo)
    requires ForestSpec(SortBy(all, Key), src, tgt, opt)
    ensures forall x :: x in SortBy(before + all, Key) ==> x in before || TopRight(x, src, tgt, opt)
  {
    var sorted := SortBy(all, Key);
    forall x | x in SortBy(before + all, Key) && x !in before ensures TopRight(x, src, tgt, opt) {
      assert x in multiset(before + all);
      assert x in multiset(sorted);
      var i :| 0 <= i < |sorted| && sorted[i] == x;
    }
  }

  /** A list of top-level nodes extended by nodes of the diff holds top-level nodes only. */
  lemma TopTypesKept(before: seq<ComparisonObject>, f: seq<ComparisonObject>,
                     src: TM.Model, tgt: TM.Model, opt: OptionsInfo)
    requires forall i :: 0 <= i < |before| ==> IsTopType(before[i].objectType)
    requires forall x :: x in f ==> x in before || TopRight(x, src, tgt, opt)
    ensures forall i :: 0 <= i < |f| ==> IsTopType(f[i].objectType)
  {
    forall i | 0 <= i < |f| ensures IsTopType(f[i].objectType) {
      if f[i] !in before {
        NodeShapedOf(f[i], src, tgt, opt);
      } else {
        var j :| 0 <= j < |before| && before[j] == f[i];
      }
    }
  }

  /** Sorting the appended list keeps the nodes that were there before. */
  lemma SortKeeps(before: seq<ComparisonObject>, all: seq<ComparisonObject>)
    ensures forall x :: x in before ==> x in SortBy(before + all, Key)
  {
    forall x | x in before ensures x in SortBy(before + all, Key) {
      assert x in multiset(before + all);
    }
  }

  lemma EmptyConcat<T>(s: seq<T>)
    ensures [] + s == s
  {
  }

  class Comparison {
    var options: OptionsInfo
    var source: TM.Model
    var target: TM.Model
    /** _comparisonObjects and _comparisonObjectCount. */
    var forest: seq<ComparisonObject>
    var count: nat
    var uncommittedChanges: bool
    var lastSourceSchemaUpdate: nat
    var lastTargetSchemaUpdate: nat
    /** The validation messages raised so far, and the backup of the cross-cutting objects. */
    var messages: seq<Message>
    var snapshot: Snapshot

    constructor(src: TM.Model, tgt: TM.Model, opt: OptionsInfo)
      ensures source == src && target == tgt && options == opt
      ensures forest == [] && count == 0 && messages == [] && !uncommittedChanges
      ensures Valid()
    {
      options := opt;
      source := src;
      target := tgt;
      forest := [];
      count := 0;
      uncommittedChanges := false;
      lastSourceSchemaUpdate := 0;
      lastTargetSchemaUpdate := 0;
      messages := [];
      snapshot := Snapshot(map[], map[], map[]);
    }

    /** Every node of the forest is a top-level node, as CompareTabularModels builds it. */
    ghost predicate Valid()
      reads this
    {
      forall i :: 0 <= i < |forest| ==> IsTopType(forest[i].objectType)
    }

    /** The applier's view of this object. */
    function Current(): State
      reads this
    {
      State(target, messages, snapshot)
    }

    // -------------------------------------------------------------------------
    // The diff

    /** Builds the forest and counts its nodes, then records both timestamps. The
        list is not cleared first: nodes of an earlier comparison stay in it, while
        the count starts again from zero and counts the new nodes only. */
    method CompareTabularModels()
      requires Valid()
      modifies this
      ensures Valid()
      ensures Rediffed(old(forest), forest, count, source, target, options)
      ensures Sorted(forest, Key)
      ensures old(forest) == [] ==> ForestSpec(forest, source, target, options) && count == TotalNodes(forest)
      ensures forall x :: x in old(forest) ==> x in forest
      ensures !uncommittedChanges
      ensures lastSourceSchemaUpdate == source.lastSchemaUpdate && lastTargetSchemaUpdate == target.lastSchemaUpdate
      ensures source == old(source) && target == old(target) && options == old(options)
      ensures messages == old(messages) && snapshot == old(snapshot)
    {
      var before, src, tgt, opt := forest, source, target, options;
      var f, n := Rediff(before, src, tgt, opt);
      TopTypesKept(before, f, src, tgt, opt);
      forest, count := f, n;
      uncommittedChanges := false;
      lastSourceSchemaUpdate := source.lastSchemaUpdate;
      lastTargetSchemaUpdate := target.lastSchemaUpdate;
    }

    // -------------------------------------------------------------------------
    // M dependency checks

    /** The reverse check: appends an entry for every kept target object that
        references (ty, c.name). */
    method CheckToDependenciesInTarget(c: ComparisonObject, ty: TM.MDependencyObjectType, w0: seq<WarningItem>)
      returns (w: seq<WarningItem>)
      ensures w == w0 + ToWarnings(TM.DependenciesReferenceTo(target.dependencies, ty, c.name), forest)
    {
      var deps := TM.DependenciesReferenceTo(target.dependencies, ty, c.name);
      w := w0;
      for i := 0 to |deps|
        invariant w == w0 + ToWarnings(deps[..i], forest)
      {
        w := KeptDependentsOf(deps[i], w);
        assert deps[..i + 1][..i] == deps[..i];
      }
      assert deps[..|deps|] == deps;
    }

    /** The inner loop of the reverse check: one entry per kept node that is dependent d. */
    method KeptDependentsOf(d: TM.MDependency, w0: seq<WarningItem>) returns (w: seq<WarningItem>)
      ensures w == w0 + ToItemsOver(d, forest)
    {
      w := w0;
      for j := 0 to |forest|
        invariant w == w0 + ToItemsOver(d, forest[..j])
      {
        if KeptDependent(d, forest[j]) {
          w := w + [ToItem(d)];
        }
        assert forest[..j + 1][..j] == forest[..j];
      }
      assert forest[..|forest|] == forest;
    }

    /** The forward check: appends an entry for every object (ty, c.name) references
        in the source that is missing from the target and left uncreated. */
    method CheckFromDependenciesInSource(c: ComparisonObject, ty: TM.MDependencyObjectType, w0: seq<WarningItem>)
      returns (w: seq<WarningItem>)
      ensures w == w0 + FromWarnings(TM.DependenciesReferenceFrom(source.dependencies, ty, c.name), forest, target)
    {
      var deps := TM.DependenciesReferenceFrom(source.dependencies, ty, c.name);
      w := w0;
      for i := 0 to |deps|
        invariant w == w0 + FromWarnings(deps[..i], forest, target)
      {
        w := MissingPrerequisitesOf(deps[i], w);
        assert deps[..i + 1][..i] == deps[..i];
      }
      assert deps[..|deps|] == deps;
    }

    /** The inner loop of the forward check: one entry per node showing that the
        object d references is missing and left uncreated. */
    method MissingPrerequisitesOf(d: TM.MDependency, w0: seq<WarningItem>) returns (w: seq<WarningItem>)
      ensures w == w0 + FromItemsOver(d, forest, target)
    {
      w := w0;
      for j := 0 to |forest|
        invariant w == w0 + FromItemsOver(d, forest[..j], target)
      {
        if MissingPrerequisite(d, forest[j], target) {
          w := w + [FromItem(d)];
        }
        assert forest[..j + 1][..j] == forest[..j];
      }
      assert forest[..|forest|] == forest;
    }

    /** The legacy query partitions of target tables whose connection is `name`. */
    method QueryPartitionsUsing(name: Name) returns (items: set<WarningItem>)
      ensures items == QueryPartitionItems(target, name)
    {
      items := {};
      var pending := target.tables.Keys;
      while pending != {}
        invariant pending <= target.tables.Keys
        invariant items == set t, p | t in target.tables.Keys - pending && p in target.tables[t].partitions &&
          p.sourceType == TM.Query && target.tables[t].connectionName == name :: PartitionItem(t, p.name)
        decreases pending
      {
        var t :| t in pending;
        var table := target.tables[t];
        var found: set<WarningItem> := {};
        for k := 0 to |table.partitions|
          invariant found == set p | p in table.partitions[..k] && p.sourceType == TM.Query &&
            table.connectionName == name :: PartitionItem(t, p.name)
        {
          var p := table.partitions[k];
          if p.sourceType == TM.Query && table.connectionName == name {
            found := found + {PartitionItem(t, p.name)};
          }
          assert table.partitions[..k + 1] == table.partitions[..k] + [p];
        }
        assert table.partitions[..|table.partitions|] == table.partitions;
        items := items + found;
        pending := pending - {t};
      }
    }

    // -------------------------------------------------------------------------
    // Connections

    method DeleteConnection(c: ComparisonObject)
      modifies this`target, this`messages
      ensures Current() == DeleteConnectionStep(old(Current()), forest, c)
    {
      if c.objectType == Connection && c.mergeAction == Delete {
        var w := CheckToDependenciesInTarget(c, TM.ConnectionObject, []);
        var parts := QueryPartitionsUsing(c.name);
        ConnectionBlockersFound(w, parts, target, forest, c.name);
        if w == [] && parts == {} {
          target := target.(connections := target.connections - {c.name});
          messages := messages + [Message(Connection, Informational, Delete, c.name, {})];
        } else {
          messages := messages + [Message(Connection, Warning, Delete, c.name, AsSet(w) + parts)];
        }
      }
    }

    method CreateConnection(c: ComparisonObject)
      requires SourceBacked(c, source)
      modifies this`target, this`messages
      ensures Current() == CreateConnectionStep(old(Current()), source, c)
    {
      if c.objectType == Connection && c.mergeAction == Create {
        target := target.(connections := target.connections[c.name := source.connections[c.name]]);
        messages := messages + [Message(Connection, Informational, Create, c.name, {})];
      }
    }

    method UpdateConnection(c: ComparisonObject)
      requires SourceBacked(c, source)
      modifies this`target, this`messages
      ensures Current() == UpdateConnectionStep(old(Current()), source, c)
    {
      if c.objectType == Connection && c.mergeAction == Update {
        target := target.(connections := target.connections[c.name := source.connections[c.name]]);
        messages := messages + [Message(Connection, Informational, Update, c.name, {})];
      }
    }

    // -------------------------------------------------------------------------
    // Expressions

    method DeleteExpression(c: ComparisonObject)
      modifies this`target, this`messages
      ensures Current() == DeleteExpressionStep(old(Current()), forest, c)
    {
      if c.objectType == Expression && c.mergeAction == Delete {
        var w := CheckToDependenciesInTarget(c, TM.ExpressionObject, []);
        assert [] + ToWarnings(TM.DependenciesReferenceTo(target.dependencies, TM.ExpressionObject, c.name), forest) ==
               ToWarnings(TM.DependenciesReferenceTo(target.dependencies, TM.ExpressionObject, c.name), forest);
        if w == [] {
          target := target.(expressions := target.expressions - {c.name});
          messages := messages + [Message(Expression, Informational, Delete, c.name, {})];
        } else {
          messages := messages + [Message(Expression, Warning, Delete, c.name, AsSet(w))];
        }
      }
    }

    method CreateExpression(c: ComparisonObject)
      requires SourceBacked(c, source)
      modifies this`target, this`messages
      ensures Current() == ExpressionCopyStep(old(Current()), source, forest, c, Create)
    {
      if c.objectType == Expression && c.mergeAction == Create {
        var w := CheckFromDependenciesInSource(c, TM.ExpressionObject, []);
        assert w == FromCheck(old(Current()), source, forest, TM.ExpressionObject, c.name);
        if w == [] {
          target := target.(expressions := target.expressions[c.name := source.expressions[c.name]]);
          messages := messages + [Message(Expression, Informational, Create, c.name, {})];
        } else {
          messages := messages + [Message(Expression, Warning, Create, c.name, AsSet(w))];
        }
      }
    }

    method UpdateExpression(c: ComparisonObject)
      requires SourceBacked(c, source)
      modifies this`target, this`messages
      ensures Current() == ExpressionCopyStep(old(Current()), source, forest, c, Update)
    {
      if c.objectType == Expression && c.mergeAction == Update {
        var w := CheckFromDependenciesInSource(c, TM.ExpressionObject, []);
        assert w == FromCheck(old(Current()), source, forest, TM.ExpressionObject, c.name);
        if w == [] {
          target := target.(expressions := target.expressions[c.name := source.expressions[c.name]]);
          messages := messages + [Message(Expression, Informational, Update, c.name, {})];
        } else {
          messages := messages + [Message(Expression, Warning, Update, c.name, AsSet(w))];
        }
      }
    }

    // -------------------------------------------------------------------------
    // Tables

    method DeleteTable(c: ComparisonObject)
      modifies this`target, this`messages
      ensures Current() == DeleteTableStep(old(Current()), c)
    {
      if c.objectType == Table && c.mergeAction == Delete {
        target := TM.DeleteTable(target, c.name);
        messages := messages + [Message(Table, Informational, Delete, c.name, {})];
      }
    }

    /** The per-partition forward check of CreateTable and UpdateTable: each pass
        overwrites the list. */
    method PartitionWarnings(c: ComparisonObject) returns (w: seq<WarningItem>)
      requires c.name in source.tables
      ensures w == TableWarnings(Current(), source, forest, c)
    {
      var sourceTable := source.tables[c.name];
      w := [];
      for k := 0 to |sourceTable.partitions|
        invariant w == if k == 0 then [] else FromCheck(Current(), source, forest, TM.PartitionObject, c.name)
      {
        w := CheckFromDependenciesInSource(c, TM.PartitionObject, []);
        assert w == FromCheck(Current(), source, forest, TM.PartitionObject, c.name);
      }
    }

    method CreateTable(c: ComparisonObject)
      requires SourceBacked(c, source)
      modifies this`target, this`messages
      ensures Current() == TableCopyStep(old(Current()), source, forest, c, Create)
    {
      if c.objectType == Table && c.mergeAction == Create {
        var w := PartitionWarnings(c);
        if w == [] {
          target := target.(tables := target.tables[c.name := source.tables[c.name]]);
          messages := messages + [Message(Table, Informational, Create, c.name, {})];
        } else {
          messages := messages + [Message(Table, Warning, Create, c.name, AsSet(w))];
        }
      }
    }

    method UpdateTable(c: ComparisonObject)
      requires SourceBacked(c, source)
      modifies this`target, this`messages
      ensures Current() == TableCopyStep(old(Current()), source, forest, c, Update)
    {
      if c.objectType == Table && c.mergeAction == Update {
        var w := PartitionWarnings(c);
        if w == [] {
          target := target.(tables := target.tables[c.name := source.tables[c.name]]);
          messages := messages + [Message(Table, Informational, Update, c.name, {})];
        } else {
          messages := messages + [Message(Table, Warning, Update, c.name, AsSet(w))];
        }
      }
    }

    // -------------------------------------------------------------------------
    // Relationships

    method DeleteRelationship(c: ComparisonObject)
      modifies this`target, this`messages
      ensures Current() == DeleteRelationshipStep(old(Current()), c)
    {
      if c.objectType == Relationship && c.mergeAction == Delete {
        if c.name in target.relationships {
          target := target.(relationships := target.relationships - {c.name});
        }
        messages := messages + [Message(Relationship, Informational, Delete, c.name, {})];
      }
    }

    method CreateRelationship(c: ComparisonObject, tableName: Name)
      requires Fires(c, Relationship, Create) ==> RelationshipSourced(source, c.name, tableName)
      modifies this`target, this`messages
      ensures Current() == CreateRelationshipStep(old(Current()), source, c, tableName)
    {
      if c.objectType == Relationship && c.mergeAction == Create {
        var relationshipSource := source.relationships[c.name];
        if tableName in target.tables && relationshipSource.toTable in target.tables {
          target := target.(relationships := target.relationships[c.name := relationshipSource]);
          messages := messages + [Message(Relationship, Informational, Create, c.name, {})];
        } else {
          messages := messages + [Message(Relationship, Warning, Create, c.name, {})];
        }
      }
    }

    method UpdateRelationship(c: ComparisonObject, tableName: Name)
      requires Fires(c, Relationship, Update) ==> RelationshipSourced(source, c.name, tableName) && tableName in target.tables
      modifies this`target, this`messages
      ensures Current() == UpdateRelationshipStep(old(Current()), source, c, tableName)
    {
      if c.objectType == Relationship && c.mergeAction == Update {
        var relationshipSource := source.relationships[c.name];
        if relationshipSource.toTable in target.tables {
          target := target.(relationships := target.relationships[c.name := relationshipSource]);
          messages := messages + [Message(Relationship, Informational, Update, c.name, {})];
        } else {
          messages := messages + [Message(Relationship, Warning, Update, c.name, {})];
        }
      }
    }

    // -------------------------------------------------------------------------
    // Measures and KPIs

    method DeleteMeasure(c: ComparisonObject)
      modifies this`target, this`messages
      ensures Current() == DeleteMeasureStep(old(Current()), c)
    {
      if (c.objectType == Measure || c.objectType == Kpi) && c.mergeAction == Delete {
        if c.name in target.measures {
          target := target.(measures := target.measures - {c.name});
        }
        messages := messages + [Message(Measure, Informational, Delete, c.name, {})];
      }
    }

    method CreateMeasure(c: ComparisonObject, tableName: Name)
      requires Fires(c, Measure, Create) && c.name !in target.measures ==> MeasureSourced(target, source, c.name, tableName)
      modifies this`target, this`messages
      ensures Current() == CreateMeasureStep(old(Current()), source, c, tableName)
    {
      if (c.objectType == Measure || c.objectType == Kpi) && c.mergeAction == Create {
        if c.name in target.measures {
          messages := messages + [Message(Measure, Warning, Create, c.name, {})];
          return;
        }
        target := target.(measures := target.measures[c.name := source.measures[c.name]]);
        messages := messages + [Message(Measure, Informational, Create, c.name, {})];
      }
    }

    method UpdateMeasure(c: ComparisonObject, tableName: Name)
      requires Fires(c, Measure, Update) ==> MeasureSourced(target, source, c.name, tableName)
      modifies this`target, this`messages
      ensures Current() == UpdateMeasureStep(old(Current()), source, c, tableName)
    {
      if (c.objectType == Measure || c.objectType == Kpi) && c.mergeAction == Update {
        target := target.(measures := target.measures[c.name := source.measures[c.name]]);
        messages := messages + [Message(Measure, Informational, Update, c.name, {})];
      }
    }

    // -------------------------------------------------------------------------
    // Perspectives, roles and cultures: the loop bodies of their phases

    method ApplyPerspective(c: ComparisonObject, act: MergeAction)
      requires SourceBacked(c, source)
      modifies this`target, this`messages
      ensures Current() == PerspectiveStep(old(Current()), source, options, c, act)
    {
      if c.objectType == Perspective && c.mergeAction == act && act != Skip {
        var ps := target.perspectives;
        if act == Delete {
          target := target.(perspectives := ps - {c.name});
        } else if act == Create {
          target := target.(perspectives := ps[c.name := source.perspectives[c.name]]);
        } else {
          var selections := if options.optionMergePerspectives && c.name in ps
                            then ps[c.name] + source.perspectives[c.name] else source.perspectives[c.name];
          target := target.(perspectives := ps[c.name := selections]);
        }
        messages := messages + [Message(Perspective, Informational, act, c.name, {})];
      }
    }

    method ApplyRole(c: ComparisonObject, act: MergeAction)
      requires SourceBacked(c, source)
      modifies this`target, this`messages
      ensures Current() == RoleStep(old(Current()), source, c, act)
    {
      if c.objectType == Role && c.mergeAction == act && act != Skip {
        if act == Delete {
          target := target.(roles := target.roles - {c.name});
        } else {
          target := target.(roles := target.roles[c.name := source.roles[c.name]]);
        }
        messages := messages + [Message(Role, Informational, act, c.name, {})];
      }
    }

    method ApplyCulture(c: ComparisonObject, act: MergeAction)
      requires SourceBacked(c, source)
      modifies this`target, this`messages
      ensures Current() == CultureStep(old(Current()), source, options, c, act)
    {
      if c.objectType == Culture && c.mergeAction == act && act != Skip {
        var cs := target.cultures;
        if act == Delete {
          target := target.(cultures := cs - {c.name});
        } else if act == Create {
          target := target.(cultures := cs[c.name := source.cultures[c.name]]);
        } else {
          var translations := if options.optionMergeCultures && c.name in cs
                              then cs[c.name] + source.cultures[c.name] else source.cultures[c.name];
          target := target.(cultures := cs[c.name := translations]);
        }
        messages := messages + [Message(Culture, Informational, act, c.name, {})];
      }
    }

    // -------------------------------------------------------------------------
    // The loops of ValidateSelection

    /** The helper of `phase` and `act` called with node c. */
    method ApplyToNode(c: ComparisonObject, phase: ComparisonObjectType, act: MergeAction)
      requires IsTopType(c.objectType) && SourceBacked(c, source)
      modifies this`target, this`messages
      ensures Current() == ApplyAction(old(Current()), source, options, forest, c, phase, act)
    {
      if act == Skip {
        return;
      }
      match phase
      case Connection =>
        if act == Delete { DeleteConnection(c); }
        else if act == Create { CreateConnection(c); }
        else { UpdateConnection(c); }
      case Expression =>
        if act == Delete { DeleteExpression(c); }
        else if act == Create { CreateExpression(c); }
        else { UpdateExpression(c); }
      case Table =>
        if act == Delete { DeleteTable(c); }
        else if act == Create { CreateTable(c); }
        else { UpdateTable(c); }
      case Relationship =>
        if act == Delete { DeleteRelationship(c); }
        else if act == Create { CreateRelationship(c, ""); }
        else { UpdateRelationship(c, ""); }
      case Measure =>
        if act == Delete { DeleteMeasure(c); }
        else if act == Create { CreateMeasure(c, ""); }
        else { UpdateMeasure(c, ""); }
      case Perspective => ApplyPerspective(c, act);
      case Role => ApplyRole(c, act);
      case Culture => ApplyCulture(c, act);
      case Kpi =>
    }

    /** `foreach (comparisonObject in _comparisonObjects)` calling one helper. */
    method ForEachNode(phase: ComparisonObjectType, act: MergeAction)
      requires Applicable(forest, source)
      modifies this`target, this`messages
      ensures Current() == ActionOver(old(Current()), source, options, forest, forest, phase, act)
    {
      for i := 0 to |forest|
        invariant Applicable(forest[..i], source)
        invariant Current() == ActionOver(old(Current()), source, options, forest, forest[..i], phase, act)
      {
        ApplyToNode(forest[i], phase, act);
        TakeOfTake(forest, i);
        ApplicablePrefix(forest, source, i + 1);
      }
      TakeAll(forest);
    }

    /** The nested loop of the relationship and measure phases: the helper is
        called with the parent node once per child. */
    method ForEachChild(phase: ComparisonObjectType, act: MergeAction)
      requires Applicable(forest, source)
      modifies this`target, this`messages
      ensures Current() == ChildActionOver(old(Current()), source, options, forest, forest, phase, act)
    {
      for i := 0 to |forest|
        invariant Applicable(forest[..i], source)
        invariant Current() == ChildActionOver(old(Current()), source, options, forest, forest[..i], phase, act)
      {
        ForEachChildOf(forest[i], phase, act);
        TakeOfTake(forest, i);
        ApplicablePrefix(forest, source, i + 1);
      }
      TakeAll(forest);
    }

    /** The inner loop: the helper called with node once per child of node. */
    method ForEachChildOf(node: ComparisonObject, phase: ComparisonObjectType, act: MergeAction)
      requires IsTopType(node.objectType) && SourceBacked(node, source)
      modifies this`target, this`messages
      ensures Current() == Repeat(old(Current()), source, options, forest, node, |node.children|, phase, act)
    {
      for j := 0 to |node.children|
        invariant Current() == Repeat(old(Current()), source, options, forest, node, j, phase, act)
      {
        ApplyToNode(node, phase, act);
      }
    }

    /** One category's phase: all deletes, then all creates, then all updates. */
    method ApplyCategory(cat: ComparisonObjectType)
      requires Applicable(forest, source)
      modifies this`target, this`messages
      ensures Current() == RunStep(old(Current()), source, options, forest, Apply(cat))
    {
      ForEachNode(cat, Delete);
      ForEachNode(cat, Create);
      ForEachNode(cat, Update);
    }

    method ApplyChildCategory(cat: ComparisonObjectType)
      requires Applicable(forest, source)
      modifies this`target, this`messages
      ensures Current() == RunStep(old(Current()), source, options, forest, ApplyToChildren(cat))
    {
      ForEachChild(cat, Delete);
      ForEachChild(cat, Create);
      ForEachChild(cat, Update);
    }

    method BackupAffectedObjects()
      requires Applicable(forest, source)
      modifies this`snapshot
      ensures Current() == RunStep(old(Current()), source, options, forest, Backup)
    {
      snapshot := Snapshot(target.perspectives, target.roles, target.cultures);
    }

    method RestorePerspectives()
      requires Applicable(forest, source)
      modifies this`target
      ensures Current() == RunStep(old(Current()), source, options, forest, Restore(Perspective))
    {
      target := target.(perspectives := snapshot.perspectives);
    }

    method RestoreRoles()
      requires Applicable(forest, source)
      modifies this`target
      ensures Current() == RunStep(old(Current()), source, options, forest, Restore(Role))
    {
      target := target.(roles := snapshot.roles);
    }

    method RestoreCultures()
      requires Applicable(forest, source)
      modifies this`target
      ensures Current() == RunStep(old(Current()), source, options, forest, Restore(Culture))
    {
      target := target.(cultures := snapshot.cultures);
    }

    /** The run has gone through the first k steps of PhaseOrder from st0. */
    ghost predicate RanSteps(st0: State, k: nat)
      reads this
    {
      && k <= |PhaseOrder|
      && Applicable(forest, source)
      && Current() == RunSteps(st0, source, options, forest, PhaseOrder[..k])
    }

    /** The phases, in ValidateSelection's order: the backup and the structural
        phases, then each cross-cutting category restored and re-applied. */
    method ApplyPhases()
      requires Applicable(forest, source)
      modifies this`target, this`messages, this`snapshot
      ensures Current() == RunSteps(old(Current()), source, options, forest, PhaseOrder)
    {
      ghost var st0 := Current();
      assert PhaseOrder[..0] == [];
      StructuralPhases(st0);
      CrossCuttingPhases(st0);
      assert PhaseOrder[..13] == PhaseOrder;
    }

    method StructuralPhases(ghost st0: State)
      requires RanSteps(st0, 0)
      modifies this`target, this`messages, this`snapshot
      ensures RanSteps(st0, 6)
    {
      BackupPhase(st0);
      ConnectionPhase(st0);
      ExpressionPhase(st0);
      TablePhase(st0);
      RelationshipPhase(st0);
      MeasurePhase(st0);
    }

    method CrossCuttingPhases(ghost st0: State)
      requires RanSteps(st0, 6)
      modifies this`target, this`messages
      ensures RanSteps(st0, 13)
    {
      RestorePerspectivePhase(st0);
      PerspectivePhase(st0);
      RestoreRolePhase(st0);
      RolePhase(st0);
      RolesCleanup(st0);
      RestoreCulturePhase(st0);
      CulturePhase(st0);
    }

    method BackupPhase(ghost st0: State)
      requires RanSteps(st0, 0)
      modifies this`snapshot
      ensures RanSteps(st0, 1)
    {
      BackupAffectedObjects();
      AP.RunStepsPrefix(st0, source, options, forest, 1);
    }

    method ConnectionPhase(ghost st0: State)
      requires RanSteps(st0, 1)
      modifies this`target, this`messages
      ensures RanSteps(st0, 2)
    {
      ApplyCategory(Connection);
      AP.RunStepsPrefix(st0, source, options, forest, 2);
    }

    method ExpressionPhase(ghost st0: State)
      requires RanSteps(st0, 2)
      modifies this`target, this`messages
      ensures RanSteps(st0, 3)
    {
      ApplyCategory(Expression);
      AP.RunStepsPrefix(st0, source, options, forest, 3);
    }

    method TablePhase(ghost st0: State)
      requires RanSteps(st0, 3)
      modifies this`target, this`messages
      ensures RanSteps(st0, 4)
    {
      ApplyCategory(Table);
      AP.RunStepsPrefix(st0, source, options, forest, 4);
    }

    method RelationshipPhase(ghost st0: State)
      requires RanSteps(st0, 4)
      modifies this`target, this`messages
      ensures RanSteps(st0, 5)
    {
      ApplyChildCategory(Relationship);
      AP.RunStepsPrefix(st0, source, options, forest, 5);
    }

    method MeasurePhase(ghost st0: State)
      requires RanSteps(st0, 5)
      modifies this`target, this`messages
      ensures RanSteps(st0, 6)
    {
      ApplyChildCategory(Measure);
      AP.RunStepsPrefix(st0, source, options, forest, 6);
    }

    method RestorePerspectivePhase(ghost st0: State)
      requires RanSteps(st0, 6)
      modifies this`target
      ensures RanSteps(st0, 7)
    {
      RestorePerspectives();
      AP.RunStepsPrefix(st0, source, options, forest, 7);
    }

    method PerspectivePhase(ghost st0: State)
      requires RanSteps(st0, 7)
      modifies this`target, this`messages
      ensures RanSteps(st0, 8)
    {
      ApplyCategory(Perspective);
      AP.RunStepsPrefix(st0, source, options, forest, 8);
    }

    method RestoreRolePhase(ghost st0: State)
      requires RanSteps(st0, 8)
      modifies this`target
      ensures RanSteps(st0, 9)
    {
      RestoreRoles();
      AP.RunStepsPrefix(st0, source, options, forest, 9);
    }

    method RolePhase(ghost st0: State)
      requires RanSteps(st0, 9)
      modifies this`target, this`messages
      ensures RanSteps(st0, 10)
    {
      ApplyCategory(Role);
      AP.RunStepsPrefix(st0, source, options, forest, 10);
    }

    /** RolesCleanup changes nothing in this model. */
    method RolesCleanup(ghost st0: State)
      requires RanSteps(st0, 10)
      ensures RanSteps(st0, 11)
    {
      AP.RunStepsPrefix(st0, source, options, forest, 11);
    }

    method RestoreCulturePhase(ghost st0: State)
      requires RanSteps(st0, 11)
      modifies this`target
      ensures RanSteps(st0, 12)
    {
      RestoreCultures();
      AP.RunStepsPrefix(st0, source, options, forest, 12);
    }

    method CulturePhase(ghost st0: State)
      requires RanSteps(st0, 12)
      modifies this`target, this`messages
      ensures RanSteps(st0, 13)
    {
      ApplyCategory(Culture);
      AP.RunStepsPrefix(st0, source, options, forest, 13);
    }

    /** Takes the refreshed models; stops if a live side changed since the
        comparison, before anything else changes; otherwise marks the target as
        having uncommitted changes and runs the phases, unless a node to create
        or update names an object the refreshed source lacks. */
    method ValidateSelection(sourceNow: TM.Model, targetNow: TM.Model) returns (outcome: ValidationOutcome)
      requires Valid()
      modifies this
      ensures Valid()
      ensures source == sourceNow
      ensures outcome == SourceChanged <==> Stale(sourceNow, old(lastSourceSchemaUpdate))
      ensures outcome == TargetChanged <==>
        !Stale(sourceNow, old(lastSourceSchemaUpdate)) && Stale(targetNow, old(lastTargetSchemaUpdate))
      ensures outcome == SourceObjectMissing <==>
        !Stale(sourceNow, old(lastSourceSchemaUpdate)) && !Stale(targetNow, old(lastTargetSchemaUpdate)) &&
        exists i :: 0 <= i < |forest| && !SourceBacked(forest[i], sourceNow)
      ensures outcome != Validated ==>
        target == targetNow && messages == old(messages) && snapshot == old(snapshot)
      ensures (outcome == SourceChanged || outcome == TargetChanged) ==> uncommittedChanges == old(uncommittedChanges)
      ensures outcome == SourceObjectMissing ==> uncommittedChanges
      ensures outcome == Validated ==>
        uncommittedChanges && Applicable(forest, sourceNow) &&
        Current() == RunSteps(State(targetNow, old(messages), old(snapshot)), sourceNow, options, forest, PhaseOrder)
      ensures forest == old(forest) && count == old(count) && options == old(options)
      ensures lastSourceSchemaUpdate == old(lastSourceSchemaUpdate) && lastTargetSchemaUpdate == old(lastTargetSchemaUpdate)
    {
      source := sourceNow;
      target := targetNow;
      if Stale(source, lastSourceSchemaUpdate) {
        return SourceChanged;
      }
      if Stale(target, lastTargetSchemaUpdate) {
        return TargetChanged;
      }
      uncommittedChanges := true;
      if !Applicable(forest, source) {
        return SourceObjectMissing;
      }
      ApplyPhases();
      outcome := Validated;
    }

    /** Adds node c's table when it is to be created or updated, then recurses
        into its children. */
    method ProcessAffectedTables(c: ComparisonObject, tables: ProcessingTableCollection)
      modifies tables
      ensures tables.items == old(tables.items) + AffectedIn(c)
      decreases c
    {
      if Affected(c) {
        tables.Add(ProcessingTable(c.name));
      }
      ghost var start := tables.items;
      for j := 0 to |c.children|
        invariant tables.items == start + AffectedChildren(c, j)
      {
        ProcessAffectedTables(c.children[j], tables);
      }
    }

    /** Nothing with DoNotProcess; the affected tables of the forest when only
        those are processed; otherwise every target table. Sorted in each case. */
    method GetTablesToProcess() returns (tables: ProcessingTableCollection)
      ensures fresh(tables)
      ensures TablesToProcess(tables.items, options, forest, target)
    {
      tables := new ProcessingTableCollection();
      if options.optionProcessingOption != DoNotProcess {
        if options.optionAffectedTables {
          CollectAffectedTables(tables);
        } else {
          CollectTargetTables(tables);
        }
      }
      ghost var before := tables.items;
      tables.Sort();
      assert forall t :: multiset(tables.items)[t] == multiset(before)[t];
      assert forall t :: t in tables.items <==> t in before by {
        forall t ensures t in tables.items <==> t in before {
          assert t in tables.items <==> t in multiset(tables.items);
        }
      }
    }

    /** The loop of GetTablesToProcess over the comparison objects. */
    method CollectAffectedTables(tables: ProcessingTableCollection)
      requires tables.items == []
      modifies tables
      ensures tables.items == AffectedOver(forest)
    {
      for i := 0 to |forest|
        invariant tables.items == AffectedOver(forest[..i])
      {
        ProcessAffectedTables(forest[i], tables);
        assert forest[..i + 1][..i] == forest[..i];
      }
      assert forest[..|forest|] == forest;
    }

    /** The loop of GetTablesToProcess over the target tables, taken in any order. */
    method CollectTargetTables(tables: ProcessingTableCollection)
      requires tables.items == []
      modifies tables
      ensures |tables.items| == |target.tables|
      ensures forall t :: t in tables.items <==> t.name in target.tables
      ensures forall t :: multiset(tables.items)[t] <= 1
    {
      var remaining := target.tables.Keys;
      ghost var taken: set<Name> := {};
      while remaining != {}
        invariant remaining + taken == target.tables.Keys && remaining !! taken
        invariant |tables.items| == |taken|
        invariant forall t :: t in tables.items <==> t.name in taken
        invariant forall t :: multiset(tables.items)[t] <= 1
        decreases |remaining|
      {
        var n :| n in remaining;
        assert ProcessingTable(n) !in tables.items;
        tables.Add(ProcessingTable(n));
        remaining := remaining - {n};
        taken := taken + {n};
      }
      assert taken == target.tables.Keys;
    }
  }
}
