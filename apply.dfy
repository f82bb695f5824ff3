/** What ValidateSelection does to the target, as functions: one step function per
    Delete/Create/Update helper, the folds that run a helper over the forest, the
    fixed phase order, and the properties of the whole run. */
module Apply {
  import TM = TabularModel
  import opened ComparisonObjects
  import opened Dependencies

  datatype Severity = Informational | Warning

  /** A validation message: its category, severity, the action it reports, the
      object it names and, for a blocked action, the objects that block it. */
  datatype Message = Message(category: ComparisonObjectType, severity: Severity, action: MergeAction,
                             name: Name, blockers: set<WarningItem>)

  /** The cross-cutting objects of the target as backed up before the structural phases. */
  datatype Snapshot = Snapshot(perspectives: map<Name, TM.Selections>, roles: map<Name, TM.Definition>,
                               cultures: map<Name, TM.Selections>)

  /** The applier's state: the target being changed, the messages so far and the backup. */
  datatype State = State(target: TM.Model, messages: seq<Message>, snapshot: Snapshot)

  function AsSet(s: seq<WarningItem>): (r: set<WarningItem>)
    ensures forall w :: w in r <==> w in s
  {
    set w | w in s
  }

  function Info(st: State, category: ComparisonObjectType, action: MergeAction, name: Name): State {
    st.(messages := st.messages + [Message(category, Informational, action, name, {})])
  }

  function Warn(st: State, category: ComparisonObjectType, action: MergeAction, name: Name,
                blockers: set<WarningItem>): State {
    st.(messages := st.messages + [Message(category, Warning, action, name, blockers)])
  }

  /** The helper for `phase` and `act` acts on node c: the node has that type (a
      KPI counts as a measure) and that action. */
  predicate Fires(c: ComparisonObject, phase: ComparisonObjectType, act: MergeAction) {
    && act != Skip
    && c.mergeAction == act
    && (c.objectType == phase || (phase == Measure && c.objectType == Kpi))
  }

  /** The source object a Create or Update node is copied from exists. */
  predicate SourceBacked(c: ComparisonObject, src: TM.Model) {
    (c.mergeAction == Create || c.mergeAction == Update) ==>
      match c.objectType
      case Connection => c.name in src.connections
      case Table => c.name in src.tables
      case Expression => c.name in src.expressions
      case Perspective => c.name in src.perspectives
      case Culture => c.name in src.cultures
      case Role => c.name in src.roles
      case _ => true
  }

  // ---------------------------------------------------------------------------
  // Connections

  /** The objects that block deleting connection `name`: kept dependents in the
      target, and tables whose query partitions use the connection. */
  function ConnectionBlockers(target: TM.Model, forest: seq<ComparisonObject>, name: Name): set<WarningItem> {
    AsSet(ToWarnings(TM.DependenciesReferenceTo(target.dependencies, TM.ConnectionObject, name), forest)) +
    QueryPartitionItems(target, name)
  }

  function DeleteConnectionStep(st: State, forest: seq<ComparisonObject>, c: ComparisonObject): State {
    if Fires(c, Connection, Delete) then
      var blockers := ConnectionBlockers(st.target, forest, c.name);
      if blockers == {} then
        Info(st.(target := st.target.(connections := st.target.connections - {c.name})), Connection, Delete, c.name)
      else Warn(st, Connection, Delete, c.name, blockers)
    else st
  }

  function CreateConnectionStep(st: State, src: TM.Model, c: ComparisonObject): State
    requires SourceBacked(c, src)
  {
    if Fires(c, Connection, Create) then
      Info(st.(target := st.target.(connections := st.target.connections[c.name := src.connections[c.name]])),
           Connection, Create, c.name)
    else st
  }

  function UpdateConnectionStep(st: State, src: TM.Model, c: ComparisonObject): State
    requires SourceBacked(c, src)
  {
    if Fires(c, Connection, Update) then
      Info(st.(target := st.target.(connections := st.target.connections[c.name := src.connections[c.name]])),
           Connection, Update, c.name)
    else st
  }

  // ---------------------------------------------------------------------------
  // Expressions

  function DeleteExpressionStep(st: State, forest: seq<ComparisonObject>, c: ComparisonObject): State {
    if Fires(c, Expression, Delete) then
      var w := ToWarnings(TM.DependenciesReferenceTo(st.target.dependencies, TM.ExpressionObject, c.name), forest);
      if w == [] then
        Info(st.(target := st.target.(expressions := st.target.expressions - {c.name})), Expression, Delete, c.name)
      else Warn(st, Expression, Delete, c.name, AsSet(w))
    else st
  }

  /** The forward check of object `name` of dependency type `ty` against the current target. */
  function FromCheck(st: State, src: TM.Model, forest: seq<ComparisonObject>, ty: TM.MDependencyObjectType,
                     name: Name): seq<WarningItem> {
    FromWarnings(TM.DependenciesReferenceFrom(src.dependencies, ty, name), forest, st.target)
  }

  /** Create and Update of an expression copy the source definition unless the forward check finds something. */
  function ExpressionCopyStep(st: State, src: TM.Model, forest: seq<ComparisonObject>, c: ComparisonObject,
                              act: MergeAction): State
    requires act == Create || act == Update
    requires SourceBacked(c, src)
  {
    if Fires(c, Expression, act) then
      var w := FromCheck(st, src, forest, TM.ExpressionObject, c.name);
      if w == [] then
        Info(st.(target := st.target.(expressions := st.target.expressions[c.name := src.expressions[c.name]])),
             Expression, act, c.name)
      else Warn(st, Expression, act, c.name, AsSet(w))
    else st
  }

  // ---------------------------------------------------------------------------
  // Tables

  function DeleteTableStep(st: State, c: ComparisonObject): State {
    if Fires(c, Table, Delete) then Info(st.(target := TM.DeleteTable(st.target, c.name)), Table, Delete, c.name)
    else st
  }

  /** The warning list of CreateTable and UpdateTable. The loop over the source
      partitions runs the same table-level forward check once per partition, with
      the same arguments each time, so the list is that check's result; it stays
      empty for a table without partitions. */
  function TableWarnings(st: State, src: TM.Model, forest: seq<ComparisonObject>, c: ComparisonObject): seq<WarningItem>
    requires c.name in src.tables
  {
    if |src.tables[c.name].partitions| == 0 then []
    else FromCheck(st, src, forest, TM.PartitionObject, c.name)
  }

  function TableCopyStep(st: State, src: TM.Model, forest: seq<ComparisonObject>, c: ComparisonObject,
                         act: MergeAction): State
    requires act == Create || act == Update
    requires SourceBacked(c, src)
  {
    if Fires(c, Table, act) then
      var w := TableWarnings(st, src, forest, c);
      if w == [] then
        Info(st.(target := st.target.(tables := st.target.tables[c.name := src.tables[c.name]])), Table, act, c.name)
      else Warn(st, Table, act, c.name, AsSet(w))
    else st
  }

  // ---------------------------------------------------------------------------
  // Relationships

  /** DeleteRelationship removes the relationship if some table still has it; when
      it went with a deleted table it reports the delete all the same. */
  function DeleteRelationshipStep(st: State, c: ComparisonObject): State {
    if Fires(c, Relationship, Delete) then
      var rels := st.target.relationships;
      var rels' := if c.name in rels then rels - {c.name} else rels;
      Info(st.(target := st.target.(relationships := rels')), Relationship, Delete, c.name)
    else st
  }

  /** The source relationship named by the node starts at table `tableName`, and
      the table it ends at exists in the source. */
  predicate RelationshipSourced(src: TM.Model, name: Name, tableName: Name) {
    && tableName in src.tables
    && name in src.relationships
    && src.relationships[name].fromTable == tableName
    && src.relationships[name].toTable in src.tables
  }

  /** CreateRelationshipWithValidation and UpdateRelationship succeed when the
      tables the relationship joins exist in the target. */
  predicate RelationshipFits(target: TM.Model, src: TM.Model, name: Name, tableName: Name)
    requires name in src.relationships
  {
    tableName in target.tables && src.relationships[name].toTable in target.tables
  }

  function CreateRelationshipStep(st: State, src: TM.Model, c: ComparisonObject, tableName: Name): State
    requires Fires(c, Relationship, Create) ==> RelationshipSourced(src, c.name, tableName)
  {
    if Fires(c, Relationship, Create) then
      if RelationshipFits(st.target, src, c.name, tableName) then
        Info(st.(target := st.target.(relationships := st.target.relationships[c.name := src.relationships[c.name]])),
             Relationship, Create, c.name)
      else Warn(st, Relationship, Create, c.name, {})
    else st
  }

  function UpdateRelationshipStep(st: State, src: TM.Model, c: ComparisonObject, tableName: Name): State
    requires Fires(c, Relationship, Update) ==> RelationshipSourced(src, c.name, tableName) && tableName in st.target.tables
  {
    if Fires(c, Relationship, Update) then
      if RelationshipFits(st.target, src, c.name, tableName) then
        Info(st.(target := st.target.(relationships := st.target.relationships[c.name := src.relationships[c.name]])),
             Relationship, Update, c.name)
      else Warn(st, Relationship, Update, c.name, {})
    else st
  }

  // ---------------------------------------------------------------------------
  // Measures and KPIs

  /** DeleteMeasure removes the measure if some table still has it, and reports the
      delete either way. */
  function DeleteMeasureStep(st: State, c: ComparisonObject): State {
    if Fires(c, Measure, Delete) then
      var ms := st.target.measures;
      var ms' := if c.name in ms then ms - {c.name} else ms;
      Info(st.(target := st.target.(measures := ms')), Measure, Delete, c.name)
    else st
  }

  /** The source measure is in table `tableName`, which exists on both sides. */
  predicate MeasureSourced(target: TM.Model, src: TM.Model, name: Name, tableName: Name) {
    && tableName in src.tables
    && tableName in target.tables
    && name in src.measures
    && src.measures[name].tableName == tableName
  }

  /** CreateMeasure refuses a name that any target table already has. */
  function CreateMeasureStep(st: State, src: TM.Model, c: ComparisonObject, tableName: Name): State
    requires Fires(c, Measure, Create) && c.name !in st.target.measures ==> MeasureSourced(st.target, src, c.name, tableName)
  {
    if Fires(c, Measure, Create) then
      if c.name in st.target.measures then Warn(st, Measure, Create, c.name, {})
      else
        Info(st.(target := st.target.(measures := st.target.measures[c.name := src.measures[c.name]])),
             Measure, Create, c.name)
    else st
  }

  function UpdateMeasureStep(st: State, src: TM.Model, c: ComparisonObject, tableName: Name): State
    requires Fires(c, Measure, Update) ==> MeasureSourced(st.target, src, c.name, tableName)
  {
    if Fires(c, Measure, Update) then
      Info(st.(target := st.target.(measures := st.target.measures[c.name := src.measures[c.name]])),
           Measure, Update, c.name)
    else st
  }

  // ---------------------------------------------------------------------------
  // Perspectives, roles and cultures

  /** The selections an update writes: the source's, added to the target's in merge mode. */
  function Merged(target: map<Name, TM.Selections>, src: map<Name, TM.Selections>, n: Name, merge: bool): TM.Selections
    requires n in src
  {
    if merge && n in target then target[n] + src[n] else src[n]
  }

  function PerspectiveStep(st: State, src: TM.Model, opt: OptionsInfo, c: ComparisonObject, act: MergeAction): State
    requires SourceBacked(c, src)
  {
    var ps := st.target.perspectives;
    if !Fires(c, Perspective, act) then st
    else if act == Delete then Info(st.(target := st.target.(perspectives := ps - {c.name})), Perspective, act, c.name)
    else if act == Create then
      Info(st.(target := st.target.(perspectives := ps[c.name := src.perspectives[c.name]])), Perspective, act, c.name)
    else
      Info(st.(target := st.target.(perspectives :=
             ps[c.name := Merged(ps, src.perspectives, c.name, opt.optionMergePerspectives)])), Perspective, act, c.name)
  }

  function RoleStep(st: State, src: TM.Model, c: ComparisonObject, act: MergeAction): State
    requires SourceBacked(c, src)
  {
    var rs := st.target.roles;
    if !Fires(c, Role, act) then st
    else if act == Delete then Info(st.(target := st.target.(roles := rs - {c.name})), Role, act, c.name)
    else Info(st.(target := st.target.(roles := rs[c.name := src.roles[c.name]])), Role, act, c.name)
  }

  function CultureStep(st: State, src: TM.Model, opt: OptionsInfo, c: ComparisonObject, act: MergeAction): State
    requires SourceBacked(c, src)
  {
    var cs := st.target.cultures;
    if !Fires(c, Culture, act) then st
    else if act == Delete then Info(st.(target := st.target.(cultures := cs - {c.name})), Culture, act, c.name)
    else if act == Create then
      Info(st.(target := st.target.(cultures := cs[c.name := src.cultures[c.name]])), Culture, act, c.name)
    else
      Info(st.(target := st.target.(cultures :=
             cs[c.name := Merged(cs, src.cultures, c.name, opt.optionMergeCultures)])), Culture, act, c.name)
  }

  // ---------------------------------------------------------------------------
  // One helper call, and the loops over the forest

  /** Every node of the forest is a top-level node whose source object exists. */
  predicate Applicable(forest: seq<ComparisonObject>, src: TM.Model) {
    forall i :: 0 <= i < |forest| ==> IsTopType(forest[i].objectType) && SourceBacked(forest[i], src)
  }

  /** The helper of `phase` and `act` called with node c. The relationship and
      measure helpers are called with a table name of "". */
  function ApplyAction(st: State, src: TM.Model, opt: OptionsInfo, forest: seq<ComparisonObject>,
                       c: ComparisonObject, phase: ComparisonObjectType, act: MergeAction): State
    requires IsTopType(c.objectType) && SourceBacked(c, src)
  {
    if act == Skip then st
    else match phase
      case Connection =>
        if act == Delete then DeleteConnectionStep(st, forest, c)
        else if act == Create then CreateConnectionStep(st, src, c)
        else UpdateConnectionStep(st, src, c)
      case Expression =>
        if act == Delete then DeleteExpressionStep(st, forest, c) else ExpressionCopyStep(st, src, forest, c, act)
      case Table =>
        if act == Delete then DeleteTableStep(st, c) else TableCopyStep(st, src, forest, c, act)
      case Relationship =>
        if act == Delete then DeleteRelationshipStep(st, c)
        else if act == Create then CreateRelationshipStep(st, src, c, "")
        else UpdateRelationshipStep(st, src, c, "")
      case Measure =>
        if act == Delete then DeleteMeasureStep(st, c)
        else if act == Create then CreateMeasureStep(st, src, c, "")
        else UpdateMeasureStep(st, src, c, "")
      case Perspective => PerspectiveStep(st, src, opt, c, act)
      case Role => RoleStep(st, src, c, act)
      case Culture => CultureStep(st, src, opt, c, act)
      case Kpi => st
  }

  /** One `foreach` over the forest calling the helper of `phase` and `act` on each node. */
  function ActionOver(st: State, src: TM.Model, opt: OptionsInfo, forest: seq<ComparisonObject>,
                      nodes: seq<ComparisonObject>, phase: ComparisonObjectType, act: MergeAction): State
    requires Applicable(nodes, src)
  {
    if nodes == [] then st
    else
      var last := nodes[|nodes| - 1];
      ApplyAction(ActionOver(st, src, opt, forest, nodes[..|nodes| - 1], phase, act), src, opt, forest, last, phase, act)
  }

  /** The helper called `k` times with the same node. */
  function Repeat(st: State, src: TM.Model, opt: OptionsInfo, forest: seq<ComparisonObject>,
                  c: ComparisonObject, k: nat, phase: ComparisonObjectType, act: MergeAction): State
    requires IsTopType(c.objectType) && SourceBacked(c, src)
  {
    if k == 0 then st
    else ApplyAction(Repeat(st, src, opt, forest, c, k - 1, phase, act), src, opt, forest, c, phase, act)
  }

  /** The nested `foreach` of the relationship and measure phases: for every child
      of every node, the helper is called with the parent node. */
  function ChildActionOver(st: State, src: TM.Model, opt: OptionsInfo, forest: seq<ComparisonObject>,
                           nodes: seq<ComparisonObject>, phase: ComparisonObjectType, act: MergeAction): State
    requires Applicable(nodes, src)
  {
    if nodes == [] then st
    else
      var last := nodes[|nodes| - 1];
      Repeat(ChildActionOver(st, src, opt, forest, nodes[..|nodes| - 1], phase, act), src, opt, forest,
             last, |last.children|, phase, act)
  }

  // ---------------------------------------------------------------------------
  // The phases

  datatype Step =
    | Backup
    | Apply(category: ComparisonObjectType)
    | ApplyToChildren(category: ComparisonObjectType)
    | Restore(category: ComparisonObjectType)
    | CleanupRoles

  /** The order ValidateSelection runs its steps in. */
  const PhaseOrder: seq<Step> := [
    Backup,
    Apply(Connection), Apply(Expression), Apply(Table),
    ApplyToChildren(Relationship), ApplyToChildren(Measure),
    Restore(Perspective), Apply(Perspective),
    Restore(Role), Apply(Role), CleanupRoles,
    Restore(Culture), Apply(Culture)
  ]

  /** Deletes, then creates, then updates. */
  function RunCategory(st: State, src: TM.Model, opt: OptionsInfo, forest: seq<ComparisonObject>,
                       phase: ComparisonObjectType): State
    requires Applicable(forest, src)
  {
    var d := ActionOver(st, src, opt, forest, forest, phase, Delete);
    var c := ActionOver(d, src, opt, forest, forest, phase, Create);
    ActionOver(c, src, opt, forest, forest, phase, Update)
  }

  function RunChildCategory(st: State, src: TM.Model, opt: OptionsInfo, forest: seq<ComparisonObject>,
                            phase: ComparisonObjectType): State
    requires Applicable(forest, src)
  {
    var d := ChildActionOver(st, src, opt, forest, forest, phase, Delete);
    var c := ChildActionOver(d, src, opt, forest, forest, phase, Create);
    ChildActionOver(c, src, opt, forest, forest, phase, Update)
  }

  function RunStep(st: State, src: TM.Model, opt: OptionsInfo, forest: seq<ComparisonObject>, s: Step): State
    requires Applicable(forest, src)
  {
    match s
    case Backup => st.(snapshot := Snapshot(st.target.perspectives, st.target.roles, st.target.cultures))
    case Apply(cat) => RunCategory(st, src, opt, forest, cat)
    case ApplyToChildren(cat) => RunChildCategory(st, src, opt, forest, cat)
    case Restore(cat) =>
      if cat == Perspective then st.(target := st.target.(perspectives := st.snapshot.perspectives))
      else if cat == Role then st.(target := st.target.(roles := st.snapshot.roles))
      else st.(target := st.target.(cultures := st.snapshot.cultures))
    case CleanupRoles => st
  }

  function RunSteps(st: State, src: TM.Model, opt: OptionsInfo, forest: seq<ComparisonObject>, steps: seq<Step>): State
    requires Applicable(forest, src)
  {
    if steps == [] then st
    else RunStep(RunSteps(st, src, opt, forest, steps[..|steps| - 1]), src, opt, forest, steps[|steps| - 1])
  }
}
