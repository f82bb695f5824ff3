/** What each Delete/Create/Update helper of the applier does, stated against the
    dependency edges and the forest rather than against the warning lists. */
module HelperRules {
  import TM = TabularModel
  import opened ComparisonObjects
  import opened Dependencies
  import opened Apply

  lemma AsSetEmpty(w: seq<WarningItem>)
    ensures AsSet(w) == {} <==> w == []
  {
    if w != [] {
      assert w[0] in AsSet(w);
    }
  }

  /** Some object of the target that references (ty, name) is kept by the user. */
  ghost predicate HasKeptDependent(target: TM.Model, ty: TM.MDependencyObjectType, name: Name,
                                   forest: seq<ComparisonObject>) {
    exists d, x :: (d in target.dependencies && d.referencedObjectType == ty && d.referencedObjectName == name &&
      x in forest && KeptDependent(d, x))
  }

  /** Some object that the source's (ty, name) references is missing from the target
      and the user chose not to create it. */
  ghost predicate HasMissingPrerequisite(src: TM.Model, target: TM.Model, ty: TM.MDependencyObjectType, name: Name,
                                         forest: seq<ComparisonObject>) {
    exists d, x :: (d in src.dependencies && d.objectType == ty && TM.OwnerName(d) == name &&
      x in forest && MissingPrerequisite(d, x, target))
  }

  lemma KeptIff(target: TM.Model, ty: TM.MDependencyObjectType, name: Name, forest: seq<ComparisonObject>)
    ensures ToWarnings(TM.DependenciesReferenceTo(target.dependencies, ty, name), forest) == [] <==>
            !HasKeptDependent(target, ty, name, forest)
  {
    CheckToEmpty(target, ty, name, forest);
  }

  lemma MissingIff(src: TM.Model, target: TM.Model, ty: TM.MDependencyObjectType, name: Name,
                   forest: seq<ComparisonObject>)
    ensures FromWarnings(TM.DependenciesReferenceFrom(src.dependencies, ty, name), forest, target) == [] <==>
            !HasMissingPrerequisite(src, target, ty, name, forest)
  {
    CheckFromEmpty(src, target, ty, name, forest);
  }

  // ---------------------------------------------------------------------------
  // Connections

  /** A connection is deleted iff no kept target object references it and no
      legacy query partition in the target uses it; otherwise a warning naming
      the blockers is written and the target is left as it was. */
  lemma DeleteConnectionRule(st: State, forest: seq<ComparisonObject>, c: ComparisonObject)
    requires Fires(c, Connection, Delete)
    ensures var r := DeleteConnectionStep(st, forest, c);
      var blocked := HasKeptDependent(st.target, TM.ConnectionObject, c.name, forest) ||
                     TM.QueryPartitionUses(st.target, c.name);
      && (!blocked ==> r.target == st.target.(connections := st.target.connections - {c.name}) &&
                       r.messages == st.messages + [Message(Connection, Informational, Delete, c.name, {})])
      && (blocked ==> r.target == st.target &&
                      r.messages == st.messages +
                        [Message(Connection, Warning, Delete, c.name, ConnectionBlockers(st.target, forest, c.name))] &&
                      ConnectionBlockers(st.target, forest, c.name) != {})
  {
    var w := ToWarnings(TM.DependenciesReferenceTo(st.target.dependencies, TM.ConnectionObject, c.name), forest);
    KeptIff(st.target, TM.ConnectionObject, c.name, forest);
    QueryPartitionItemsEmpty(st.target, c.name);
    AsSetEmpty(w);
  }

  /** The blockers of a connection delete: the kept dependents and the query partitions using it. */
  lemma ConnectionBlockersMembers(target: TM.Model, forest: seq<ComparisonObject>, name: Name, w: WarningItem)
    ensures w in ConnectionBlockers(target, forest, name) <==>
      ((exists d, x :: (d in target.dependencies && d.referencedObjectType == TM.ConnectionObject &&
          d.referencedObjectName == name && x in forest && KeptDependent(d, x) && w == ToItem(d))) ||
       (exists t, p :: (t in target.tables && p in target.tables[t].partitions && p.sourceType == TM.Query &&
          target.tables[t].connectionName == name && w == PartitionItem(t, p.name))))
  {
    var deps := TM.DependenciesReferenceTo(target.dependencies, TM.ConnectionObject, name);
    ToWarningsMembers(deps, forest);
    if w in ToWarnings(deps, forest) {
      var i, j :| 0 <= i < |deps| && 0 <= j < |forest| && KeptDependent(deps[i], forest[j]) && w == ToItem(deps[i]);
      assert deps[i] in deps && forest[j] in forest;
    }
    if exists d, x :: (d in target.dependencies && d.referencedObjectType == TM.ConnectionObject &&
          d.referencedObjectName == name && x in forest && KeptDependent(d, x) && w == ToItem(d)) {
      var d, x :| d in target.dependencies && d.referencedObjectType == TM.ConnectionObject &&
          d.referencedObjectName == name && x in forest && KeptDependent(d, x) && w == ToItem(d);
      assert d in deps;
      var i :| 0 <= i < |deps| && deps[i] == d;
      var j :| 0 <= j < |forest| && forest[j] == x;
    }
  }

  /** An expression the user keeps in the target while deleting the connection it
      reads from keeps the connection alive, and the warning names the expression. */
  lemma KeptExpressionBlocksConnectionDelete(st: State, forest: seq<ComparisonObject>, c: ComparisonObject,
                                             d: TM.MDependency, x: ComparisonObject)
    requires Fires(c, Connection, Delete)
    requires d in st.target.dependencies && d.objectType == TM.ExpressionObject
    requires d.referencedObjectType == TM.ConnectionObject && d.referencedObjectName == c.name
    requires x in forest && x.objectType == Expression && x.name == d.objectName
    requires x.status == MissingInSource && x.mergeAction == Skip
    ensures var r := DeleteConnectionStep(st, forest, c);
      && r.target == st.target
      && r.messages[|st.messages|].severity == Warning
      && ExpressionItem(d.objectName) in r.messages[|st.messages|].blockers
  {
    assert KeptDependent(d, x);
    DeleteConnectionRule(st, forest, c);
    ConnectionBlockersMembers(st.target, forest, c.name, ExpressionItem(d.objectName));
  }

  /** Creating or updating a connection always succeeds and copies the source's definition. */
  lemma CopyConnectionRule(st: State, src: TM.Model, c: ComparisonObject)
    requires SourceBacked(c, src) && (Fires(c, Connection, Create) || Fires(c, Connection, Update))
    ensures var r := if c.mergeAction == Create then CreateConnectionStep(st, src, c) else UpdateConnectionStep(st, src, c);
      && r.target.connections == st.target.connections[c.name := src.connections[c.name]]
      && r.target == st.target.(connections := r.target.connections)
      && r.messages == st.messages + [Message(Connection, Informational, c.mergeAction, c.name, {})]
  {
  }

  // ---------------------------------------------------------------------------
  // Expressions

  /** An expression is deleted iff no kept target object references it. */
  lemma DeleteExpressionRule(st: State, forest: seq<ComparisonObject>, c: ComparisonObject)
    requires Fires(c, Expression, Delete)
    ensures var r := DeleteExpressionStep(st, forest, c);
      var blocked := HasKeptDependent(st.target, TM.ExpressionObject, c.name, forest);
      && (!blocked ==> r.target == st.target.(expressions := st.target.expressions - {c.name}) &&
                       r.messages == st.messages + [Message(Expression, Informational, Delete, c.name, {})])
      && (blocked ==> r.target == st.target && |r.messages| == |st.messages| + 1 &&
                      r.messages[..|st.messages|] == st.messages &&
                      r.messages[|st.messages|].severity == Warning && r.messages[|st.messages|].blockers != {})
  {
    var w := ToWarnings(TM.DependenciesReferenceTo(st.target.dependencies, TM.ExpressionObject, c.name), forest);
    KeptIff(st.target, TM.ExpressionObject, c.name, forest);
    AsSetEmpty(w);
  }

  /** An expression is created or updated iff nothing it references in the source is
      missing from the target and left uncreated. */
  lemma CopyExpressionRule(st: State, src: TM.Model, forest: seq<ComparisonObject>, c: ComparisonObject,
                           act: MergeAction)
    requires SourceBacked(c, src) && (act == Create || act == Update) && Fires(c, Expression, act)
    ensures var r := ExpressionCopyStep(st, src, forest, c, act);
      var blocked := HasMissingPrerequisite(src, st.target, TM.ExpressionObject, c.name, forest);
      && (!blocked ==> r.target == st.target.(expressions := st.target.expressions[c.name := src.expressions[c.name]]) &&
                       r.messages == st.messages + [Message(Expression, Informational, act, c.name, {})])
      && (blocked ==> r.target == st.target && |r.messages| == |st.messages| + 1 &&
                      r.messages[..|st.messages|] == st.messages &&
                      r.messages[|st.messages|].severity == Warning && r.messages[|st.messages|].blockers != {})
  {
    var w := FromCheck(st, src, forest, TM.ExpressionObject, c.name);
    MissingIff(src, st.target, TM.ExpressionObject, c.name, forest);
    AsSetEmpty(w);
  }

  // ---------------------------------------------------------------------------
  // Tables

  /** Deleting a table always succeeds and takes its relationships and measures. */
  lemma DeleteTableRule(st: State, c: ComparisonObject)
    requires Fires(c, Table, Delete)
    ensures var r := DeleteTableStep(st, c);
      && r.target.tables == st.target.tables - {c.name}
      && (forall n :: n in r.target.relationships <==>
            n in st.target.relationships && st.target.relationships[n].fromTable != c.name)
      && (forall n :: n in r.target.measures <==> n in st.target.measures && st.target.measures[n].tableName != c.name)
      && r.messages == st.messages + [Message(Table, Informational, Delete, c.name, {})]
  {
  }

  /** A table is created or updated iff it has no partitions in the source, or
      no object its partitions reference in the source is missing from the target
      and left uncreated. The partition loop repeats one table-level check, so one
      check decides. */
  lemma CopyTableRule(st: State, src: TM.Model, forest: seq<ComparisonObject>, c: ComparisonObject, act: MergeAction)
    requires SourceBacked(c, src) && (act == Create || act == Update) && Fires(c, Table, act)
    ensures var r := TableCopyStep(st, src, forest, c, act);
      var blocked := |src.tables[c.name].partitions| > 0 &&
                     HasMissingPrerequisite(src, st.target, TM.PartitionObject, c.name, forest);
      && (!blocked ==> r.target == st.target.(tables := st.target.tables[c.name := src.tables[c.name]]) &&
                       r.messages == st.messages + [Message(Table, Informational, act, c.name, {})])
      && (blocked ==> r.target == st.target && |r.messages| == |st.messages| + 1 &&
                      r.messages[..|st.messages|] == st.messages &&
                      r.messages[|st.messages|].severity == Warning && r.messages[|st.messages|].blockers != {})
  {
    var w := TableWarnings(st, src, forest, c);
    if |src.tables[c.name].partitions| > 0 {
      MissingIff(src, st.target, TM.PartitionObject, c.name, forest);
    }
    AsSetEmpty(w);
  }

  /** A partition that reads an expression the target lacks and the user does not
      create keeps its table from being created. */
  lemma MissingExpressionBlocksTableCreate(st: State, src: TM.Model, forest: seq<ComparisonObject>,
                                           c: ComparisonObject, d: TM.MDependency, x: ComparisonObject)
    requires SourceBacked(c, src) && Fires(c, Table, Create)
    requires |src.tables[c.name].partitions| > 0
    requires d in src.dependencies && d.objectType == TM.PartitionObject && d.tableName == c.name
    requires d.referencedObjectType == TM.ExpressionObject && d.referencedObjectName !in st.target.expressions
    requires x in forest && x.objectType == Expression && x.name == d.referencedObjectName
    requires x.status == MissingInTarget && x.mergeAction == Skip
    ensures var r := TableCopyStep(st, src, forest, c, Create);
      && r.target == st.target
      && (c.name in r.target.tables <==> c.name in st.target.tables)
      && r.messages[|st.messages|].severity == Warning
  {
    assert MissingPrerequisite(d, x, st.target);
    CopyTableRule(st, src, forest, c, Create);
  }

  /** A source table without partitions is never blocked. */
  lemma TableWithoutPartitionsProceeds(st: State, src: TM.Model, forest: seq<ComparisonObject>, c: ComparisonObject,
                                       act: MergeAction)
    requires SourceBacked(c, src) && (act == Create || act == Update) && Fires(c, Table, act)
    requires |src.tables[c.name].partitions| == 0
    ensures TableCopyStep(st, src, forest, c, act).target.tables[c.name] == src.tables[c.name]
  {
  }

  // ---------------------------------------------------------------------------
  // Relationships

  /** Deleting a relationship that went with its table already reports success
      and changes nothing. */
  lemma DeleteRelationshipAlreadyRemoved(st: State, c: ComparisonObject)
    requires Fires(c, Relationship, Delete) && c.name !in st.target.relationships
    ensures var r := DeleteRelationshipStep(st, c);
      r.target == st.target && r.messages == st.messages + [Message(Relationship, Informational, Delete, c.name, {})]
  {
  }

  lemma DeleteRelationshipRule(st: State, c: ComparisonObject)
    requires Fires(c, Relationship, Delete)
    ensures var r := DeleteRelationshipStep(st, c);
      && r.target.relationships == st.target.relationships - {c.name}
      && r.target == st.target.(relationships := r.target.relationships)
      && r.messages == st.messages + [Message(Relationship, Informational, Delete, c.name, {})]
  {
  }

  /** A relationship is created or updated iff both of its tables exist in the target. */
  lemma CopyRelationshipRule(st: State, src: TM.Model, c: ComparisonObject, tableName: Name)
    requires Fires(c, Relationship, Create) || Fires(c, Relationship, Update)
    requires RelationshipSourced(src, c.name, tableName)
    requires c.mergeAction == Update ==> tableName in st.target.tables
    ensures var r := if c.mergeAction == Create then CreateRelationshipStep(st, src, c, tableName)
                     else UpdateRelationshipStep(st, src, c, tableName);
      var fits := tableName in st.target.tables && src.relationships[c.name].toTable in st.target.tables;
      && (fits ==> r.target == st.target.(relationships := st.target.relationships[c.name := src.relationships[c.name]]) &&
                   r.messages == st.messages + [Message(Relationship, Informational, c.mergeAction, c.name, {})])
      && (!fits ==> r.target == st.target &&
                    r.messages == st.messages + [Message(Relationship, Warning, c.mergeAction, c.name, {})])
  {
  }

  // ---------------------------------------------------------------------------
  // Measures and KPIs

  /** A measure name any target table already has is not created again: a warning
      is written and the target is left as it was. */
  lemma CreateMeasureCollision(st: State, src: TM.Model, c: ComparisonObject, tableName: Name)
    requires Fires(c, Measure, Create) && c.name in st.target.measures
    ensures var r := CreateMeasureStep(st, src, c, tableName);
      r.target == st.target && r.messages == st.messages + [Message(Measure, Warning, Create, c.name, {})]
  {
  }

  lemma CreateMeasureRule(st: State, src: TM.Model, c: ComparisonObject, tableName: Name)
    requires Fires(c, Measure, Create) && c.name !in st.target.measures
    requires MeasureSourced(st.target, src, c.name, tableName)
    ensures var r := CreateMeasureStep(st, src, c, tableName);
      && r.target.measures == st.target.measures[c.name := src.measures[c.name]]
      && r.target.measures[c.name].tableName == tableName
      && r.target == st.target.(measures := r.target.measures)
      && r.messages == st.messages + [Message(Measure, Informational, Create, c.name, {})]
  {
  }

  /** Deleting a measure or KPI removes it if present and always reports success. */
  lemma DeleteMeasureRule(st: State, c: ComparisonObject)
    requires Fires(c, Measure, Delete)
    ensures var r := DeleteMeasureStep(st, c);
      && r.target.measures == st.target.measures - {c.name}
      && r.target == st.target.(measures := r.target.measures)
      && r.messages == st.messages + [Message(Measure, Informational, Delete, c.name, {})]
  {
  }

  /** A KPI is reported under the measure category. */
  lemma KpiReportedAsMeasure(st: State, src: TM.Model, c: ComparisonObject, tableName: Name)
    requires c.objectType == Kpi && c.mergeAction == Update
    requires MeasureSourced(st.target, src, c.name, tableName)
    ensures UpdateMeasureStep(st, src, c, tableName).messages ==
            st.messages + [Message(Measure, Informational, Update, c.name, {})]
  {
  }

  // ---------------------------------------------------------------------------
  // Perspectives and cultures

  /** Updating a perspective in merge mode keeps the target's selections and adds
      the source's; otherwise the source's replace them. */
  lemma UpdatePerspectiveRule(st: State, src: TM.Model, opt: OptionsInfo, c: ComparisonObject)
    requires SourceBacked(c, src) && Fires(c, Perspective, Update) && c.name in st.target.perspectives
    ensures var r := PerspectiveStep(st, src, opt, c, Update);
      && (opt.optionMergePerspectives ==>
            r.target.perspectives[c.name] == st.target.perspectives[c.name] + src.perspectives[c.name])
      && (!opt.optionMergePerspectives ==> r.target.perspectives[c.name] == src.perspectives[c.name])
      && r.target == st.target.(perspectives := r.target.perspectives)
  {
  }

  lemma UpdateCultureRule(st: State, src: TM.Model, opt: OptionsInfo, c: ComparisonObject)
    requires SourceBacked(c, src) && Fires(c, Culture, Update) && c.name in st.target.cultures
    ensures var r := CultureStep(st, src, opt, c, Update);
      && (opt.optionMergeCultures ==>
            r.target.cultures[c.name] == st.target.cultures[c.name] + src.cultures[c.name])
      && (!opt.optionMergeCultures ==> r.target.cultures[c.name] == src.cultures[c.name])
      && r.target == st.target.(cultures := r.target.cultures)
  {
  }
}
