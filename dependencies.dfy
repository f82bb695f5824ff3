/** The M-dependency checks the applier runs before a delete, create or update:
    which objects go into the warning list, as functions of the dependency edges,
    the comparison forest and the current target. */
module Dependencies {
  import TM = TabularModel
  import opened ComparisonObjects

  /** One entry of the warning list ("Expression e", "Table t/Partition p",
      "Connection c"). */
  datatype WarningItem =
    | ExpressionItem(name: Name)
    | PartitionItem(table: Name, partition: Name)
    | ConnectionItem(name: Name)

  // ---------------------------------------------------------------------------
  // Reverse check: objects in the target that depend on an object being deleted

  /** Dependent d of the object being deleted is kept: its node is target-only
      and the user chose not to delete it. An expression is found by its own name,
      a partition by the name of its table. */
  predicate KeptDependent(d: TM.MDependency, c: ComparisonObject) {
    && c.status == MissingInSource
    && c.mergeAction == Skip
    && ((d.objectType == TM.ExpressionObject && c.objectType == Expression && c.name == d.objectName) ||
        (d.objectType == TM.PartitionObject && c.objectType == Table && c.name == d.tableName))
  }

  /** The entry the reverse check writes for a kept dependent. */
  function ToItem(d: TM.MDependency): WarningItem {
    if d.objectType == TM.ExpressionObject then ExpressionItem(d.objectName)
    else PartitionItem(d.tableName, d.objectName)
  }

  /** What the inner loop over the forest adds for one dependency edge. */
  function ToItemsOver(d: TM.MDependency, forest: seq<ComparisonObject>): seq<WarningItem> {
    if forest == [] then []
    else
      ToItemsOver(d, forest[..|forest| - 1]) +
      (if KeptDependent(d, forest[|forest| - 1]) then [ToItem(d)] else [])
  }

  /** What the nested loops of the reverse check add, edge by edge. */
  function ToWarnings(deps: seq<TM.MDependency>, forest: seq<ComparisonObject>): seq<WarningItem> {
    if deps == [] then []
    else ToWarnings(deps[..|deps| - 1], forest) + ToItemsOver(deps[|deps| - 1], forest)
  }

  lemma {:induction false} ToItemsOverMembers(d: TM.MDependency, forest: seq<ComparisonObject>)
    ensures forall w :: w in ToItemsOver(d, forest) <==>
      w == ToItem(d) && exists j :: 0 <= j < |forest| && KeptDependent(d, forest[j])
    decreases |forest|
  {
    if forest != [] {
      var init := forest[..|forest| - 1];
      ToItemsOverMembers(d, init);
      forall j | 0 <= j < |init| ensures init[j] == forest[j] { }
      if exists j :: 0 <= j < |forest| && KeptDependent(d, forest[j]) {
        var j :| 0 <= j < |forest| && KeptDependent(d, forest[j]);
        if j < |init| {
          assert KeptDependent(d, init[j]);
        }
      }
    }
  }

  /** The reverse check finds exactly the kept dependents: an entry is in the list
      iff some edge of `deps` has a kept dependent in the forest and the entry names it. */
  lemma {:induction false} ToWarningsMembers(deps: seq<TM.MDependency>, forest: seq<ComparisonObject>)
    ensures forall w :: w in ToWarnings(deps, forest) <==>
      exists i, j :: 0 <= i < |deps| && 0 <= j < |forest| && KeptDependent(deps[i], forest[j]) && w == ToItem(deps[i])
    decreases |deps|
  {
    if deps != [] {
      var init := deps[..|deps| - 1];
      var d := deps[|deps| - 1];
      ToWarningsMembers(init, forest);
      ToItemsOverMembers(d, forest);
      forall w | w in ToWarnings(deps, forest)
        ensures exists i, j :: 0 <= i < |deps| && 0 <= j < |forest| && KeptDependent(deps[i], forest[j]) && w == ToItem(deps[i])
      {
        if w in ToWarnings(init, forest) {
          var i, j :| 0 <= i < |init| && 0 <= j < |forest| && KeptDependent(init[i], forest[j]) && w == ToItem(init[i]);
          assert init[i] == deps[i];
        } else {
          var j :| 0 <= j < |forest| && KeptDependent(d, forest[j]);
          assert KeptDependent(deps[|deps| - 1], forest[j]);
        }
      }
      forall w | exists i, j :: 0 <= i < |deps| && 0 <= j < |forest| && KeptDependent(deps[i], forest[j]) && w == ToItem(deps[i])
        ensures w in ToWarnings(deps, forest)
      {
        var i, j :| 0 <= i < |deps| && 0 <= j < |forest| && KeptDependent(deps[i], forest[j]) && w == ToItem(deps[i]);
        if i < |init| {
          assert init[i] == deps[i];
          assert KeptDependent(init[i], forest[j]);
        }
      }
    }
  }

  /** The reverse check in terms of object identity: nothing is found iff no target
      object that references (ty, name) is kept. */
  lemma CheckToEmpty(target: TM.Model, ty: TM.MDependencyObjectType, name: Name, forest: seq<ComparisonObject>)
    ensures ToWarnings(TM.DependenciesReferenceTo(target.dependencies, ty, name), forest) == [] <==>
      forall d, c :: (d in target.dependencies && d.referencedObjectType == ty && d.referencedObjectName == name &&
        c in forest) ==> !KeptDependent(d, c)
  {
    var deps := TM.DependenciesReferenceTo(target.dependencies, ty, name);
    ToWarningsMembers(deps, forest);
    forall d, c | d in target.dependencies && d.referencedObjectType == ty && d.referencedObjectName == name &&
        c in forest && KeptDependent(d, c)
      ensures ToItem(d) in ToWarnings(deps, forest)
    {
      assert d in deps;
      var i :| 0 <= i < |deps| && deps[i] == d;
      var j :| 0 <= j < |forest| && forest[j] == c;
    }
    if ToWarnings(deps, forest) != [] {
      var w := ToWarnings(deps, forest)[0];
      assert w in ToWarnings(deps, forest);
      var i, j :| 0 <= i < |deps| && 0 <= j < |forest| && KeptDependent(deps[i], forest[j]) && w == ToItem(deps[i]);
      assert deps[i] in deps && forest[j] in forest;
    }
  }

  // ---------------------------------------------------------------------------
  // Forward check: objects in the source that an object being created depends on

  /** Prerequisite d of the object being created or updated is missing: the
      referenced expression or connection is not in the target, and its node is
      source-only with the user having chosen not to create it. */
  predicate MissingPrerequisite(d: TM.MDependency, c: ComparisonObject, target: TM.Model) {
    && c.status == MissingInTarget
    && c.mergeAction == Skip
    && c.name == d.referencedObjectName
    && ((d.referencedObjectType == TM.ExpressionObject && d.referencedObjectName !in target.expressions &&
         c.objectType == Expression) ||
        (d.referencedObjectType == TM.ConnectionObject && d.referencedObjectName !in target.connections &&
         c.objectType == Connection))
  }

  /** The entry the forward check writes for a missing prerequisite. */
  function FromItem(d: TM.MDependency): WarningItem {
    if d.referencedObjectType == TM.ExpressionObject then ExpressionItem(d.referencedObjectName)
    else ConnectionItem(d.referencedObjectName)
  }

  function FromItemsOver(d: TM.MDependency, forest: seq<ComparisonObject>, target: TM.Model): seq<WarningItem> {
    if forest == [] then []
    else
      FromItemsOver(d, forest[..|forest| - 1], target) +
      (if MissingPrerequisite(d, forest[|forest| - 1], target) then [FromItem(d)] else [])
  }

  function FromWarnings(deps: seq<TM.MDependency>, forest: seq<ComparisonObject>, target: TM.Model): seq<WarningItem> {
    if deps == [] then []
    else FromWarnings(deps[..|deps| - 1], forest, target) + FromItemsOver(deps[|deps| - 1], forest, target)
  }

  lemma {:induction false} FromItemsOverMembers(d: TM.MDependency, forest: seq<ComparisonObject>, target: TM.Model)
    ensures forall w :: w in FromItemsOver(d, forest, target) <==>
      w == FromItem(d) && exists j :: 0 <= j < |forest| && MissingPrerequisite(d, forest[j], target)
    decreases |forest|
  {
    if forest != [] {
      var init := forest[..|forest| - 1];
      FromItemsOverMembers(d, init, target);
      forall j | 0 <= j < |init| ensures init[j] == forest[j] { }
      if exists j :: 0 <= j < |forest| && MissingPrerequisite(d, forest[j], target) {
        var j :| 0 <= j < |forest| && MissingPrerequisite(d, forest[j], target);
        if j < |init| {
          assert MissingPrerequisite(d, init[j], target);
        }
      }
    }
  }

  /** The forward check finds exactly the missing prerequisites. */
  lemma {:induction false} FromWarningsMembers(deps: seq<TM.MDependency>, forest: seq<ComparisonObject>, target: TM.Model)
    ensures forall w :: w in FromWarnings(deps, forest, target) <==>
      exists i, j :: (0 <= i < |deps| && 0 <= j < |forest| &&
        MissingPrerequisite(deps[i], forest[j], target) && w == FromItem(deps[i]))
    decreases |deps|
  {
    if deps != [] {
      var init := deps[..|deps| - 1];
      var d := deps[|deps| - 1];
      FromWarningsMembers(init, forest, target);
      FromItemsOverMembers(d, forest, target);
      forall w | w in FromWarnings(deps, forest, target)
        ensures exists i, j :: (0 <= i < |deps| && 0 <= j < |forest| &&
          MissingPrerequisite(deps[i], forest[j], target) && w == FromItem(deps[i]))
      {
        if w in FromWarnings(init, forest, target) {
          var i, j :| 0 <= i < |init| && 0 <= j < |forest| &&
            MissingPrerequisite(init[i], forest[j], target) && w == FromItem(init[i]);
          assert init[i] == deps[i];
        } else {
          var j :| 0 <= j < |forest| && MissingPrerequisite(d, forest[j], target);
          assert MissingPrerequisite(deps[|deps| - 1], forest[j], target);
        }
      }
      forall w | exists i, j :: (0 <= i < |deps| && 0 <= j < |forest| &&
          MissingPrerequisite(deps[i], forest[j], target) && w == FromItem(deps[i]))
        ensures w in FromWarnings(deps, forest, target)
      {
        var i, j :| 0 <= i < |deps| && 0 <= j < |forest| &&
          MissingPrerequisite(deps[i], forest[j], target) && w == FromItem(deps[i]);
        if i < |init| {
          assert init[i] == deps[i];
          assert MissingPrerequisite(init[i], forest[j], target);
        }
      }
    }
  }

  /** The forward check in terms of object identity: nothing is found iff none of
      the objects (ty, name) references in the source is a missing prerequisite. */
  lemma CheckFromEmpty(source: TM.Model, target: TM.Model, ty: TM.MDependencyObjectType, name: Name,
                       forest: seq<ComparisonObject>)
    ensures FromWarnings(TM.DependenciesReferenceFrom(source.dependencies, ty, name), forest, target) == [] <==>
      forall d, c :: (d in source.dependencies && d.objectType == ty && TM.OwnerName(d) == name &&
        c in forest) ==> !MissingPrerequisite(d, c, target)
  {
    var deps := TM.DependenciesReferenceFrom(source.dependencies, ty, name);
    FromWarningsMembers(deps, forest, target);
    forall d, c | d in source.dependencies && d.objectType == ty && TM.OwnerName(d) == name &&
        c in forest && MissingPrerequisite(d, c, target)
      ensures FromItem(d) in FromWarnings(deps, forest, target)
    {
      assert d in deps;
      var i :| 0 <= i < |deps| && deps[i] == d;
      var j :| 0 <= j < |forest| && forest[j] == c;
    }
    if FromWarnings(deps, forest, target) != [] {
      var w := FromWarnings(deps, forest, target)[0];
      assert w in FromWarnings(deps, forest, target);
      var i, j :| 0 <= i < |deps| && 0 <= j < |forest| &&
        MissingPrerequisite(deps[i], forest[j], target) && w == FromItem(deps[i]);
      assert deps[i] in deps && forest[j] in forest;
    }
  }

  // ---------------------------------------------------------------------------
  // Legacy query partitions that use a connection

  /** The entries DeleteConnection adds for tables whose query partitions use
      connection `conn`. */
  function QueryPartitionItems(target: TM.Model, conn: Name): set<WarningItem> {
    set t, p | t in target.tables && p in target.tables[t].partitions &&
      p.sourceType == TM.Query && target.tables[t].connectionName == conn :: PartitionItem(t, p.name)
  }

  lemma QueryPartitionItemsEmpty(target: TM.Model, conn: Name)
    ensures QueryPartitionItems(target, conn) == {} <==> !TM.QueryPartitionUses(target, conn)
  {
    if TM.QueryPartitionUses(target, conn) {
      var t, i :| t in target.tables && 0 <= i < |target.tables[t].partitions| &&
        target.tables[t].partitions[i].sourceType == TM.Query && target.tables[t].connectionName == conn;
      var p := target.tables[t].partitions[i];
      assert PartitionItem(t, p.name) in QueryPartitionItems(target, conn);
    }
  }
}
