/** Properties of the applier: what each helper does to the target and which
    message it writes, what a loop over the forest writes, and what the whole run
    of ValidateSelection's phases writes. */
module ApplyProperties {
  import TM = TabularModel
  import opened ComparisonObjects
  import opened Dependencies
  import opened Apply

  /** What a message reports, leaving out its severity and blockers. */
  datatype Report = Report(category: ComparisonObjectType, action: MergeAction, name: Name)

  function ReportOf(m: Message): Report {
    Report(m.category, m.action, m.name)
  }

  function ReportsOf(ms: seq<Message>): (r: seq<Report>)
    ensures |r| == |ms|
    ensures forall k :: 0 <= k < |ms| ==> r[k] == ReportOf(ms[k])
  {
    if ms == [] then [] else ReportsOf(ms[..|ms| - 1]) + [ReportOf(ms[|ms| - 1])]
  }

  lemma ReportsOfAppend(a: seq<Message>, b: seq<Message>)
    ensures ReportsOf(a + b) == ReportsOf(a) + ReportsOf(b)
  {
  }

  /** The target changes only in the collections of `phase`'s category; deleting a
      table also takes relationships and measures. */
  predicate OnlyTouches(phase: ComparisonObjectType, a: TM.Model, b: TM.Model) {
    match phase
    case Connection => b == a.(connections := b.connections)
    case Expression => b == a.(expressions := b.expressions)
    case Table => b == a.(tables := b.tables, relationships := b.relationships, measures := b.measures)
    case Relationship => b == a.(relationships := b.relationships)
    case Measure => b == a.(measures := b.measures)
    case Kpi => b == a
    case Perspective => b == a.(perspectives := b.perspectives)
    case Role => b == a.(roles := b.roles)
    case Culture => b == a.(cultures := b.cultures)
  }

  /** b extends a's message list by messages reporting `reps`, and keeps the backup. */
  predicate Extends(a: State, b: State, reps: seq<Report>) {
    && |a.messages| <= |b.messages|
    && b.messages[..|a.messages|] == a.messages
    && ReportsOf(b.messages[|a.messages|..]) == reps
  }

  lemma ExtendsTrans(a: State, b: State, c: State, r1: seq<Report>, r2: seq<Report>)
    requires Extends(a, b, r1) && Extends(b, c, r2)
    ensures Extends(a, c, r1 + r2)
  {
    assert c.messages[|a.messages|..] == b.messages[|a.messages|..] + c.messages[|b.messages|..];
    ReportsOfAppend(b.messages[|a.messages|..], c.messages[|b.messages|..]);
  }

  /** What one helper call does with node c, as a shape: it writes one message
      reporting (phase, act, c.name) when it fires and changes nothing otherwise,
      keeps the backup, and changes only its category's collections. */
  predicate StepShape(st: State, r: State, c: ComparisonObject, phase: ComparisonObjectType, act: MergeAction) {
    && r.snapshot == st.snapshot
    && OnlyTouches(phase, st.target, r.target)
    && (Fires(c, phase, act) ==> Extends(st, r, [Report(phase, act, c.name)]))
    && (!Fires(c, phase, act) ==> r == st)
  }

  lemma SingleExtends(st: State, m: Message)
    ensures Extends(st, st.(messages := st.messages + [m]), [ReportOf(m)])
  {
    var ms := st.messages + [m];
    assert ms[|st.messages|..] == [m];
  }

  lemma ConnectionShape(st: State, src: TM.Model, opt: OptionsInfo, forest: seq<ComparisonObject>,
                        c: ComparisonObject, act: MergeAction)
    requires IsTopType(c.objectType) && SourceBacked(c, src)
    ensures StepShape(st, ApplyAction(st, src, opt, forest, c, Connection, act), c, Connection, act)
  {
    var r := ApplyAction(st, src, opt, forest, c, Connection, act);
    if Fires(c, Connection, act) {
      SingleExtends(r.(messages := st.messages), r.messages[|st.messages|]);
      assert r.messages == st.messages + [r.messages[|st.messages|]];
    }
  }

  lemma ExpressionDeleteShape(st: State, forest: seq<ComparisonObject>, c: ComparisonObject)
    ensures StepShape(st, DeleteExpressionStep(st, forest, c), c, Expression, Delete)
  {
    var r := DeleteExpressionStep(st, forest, c);
    if Fires(c, Expression, Delete) {
      SingleExtends(r.(messages := st.messages), r.messages[|st.messages|]);
      assert r.messages == st.messages + [r.messages[|st.messages|]];
    }
  }

  lemma ExpressionCopyShape(st: State, src: TM.Model, forest: seq<ComparisonObject>, c: ComparisonObject,
                            act: MergeAction)
    requires SourceBacked(c, src) && (act == Create || act == Update)
    ensures StepShape(st, ExpressionCopyStep(st, src, forest, c, act), c, Expression, act)
  {
    var r := ExpressionCopyStep(st, src, forest, c, act);
    if Fires(c, Expression, act) {
      SingleExtends(r.(messages := st.messages), r.messages[|st.messages|]);
      assert r.messages == st.messages + [r.messages[|st.messages|]];
    }
  }

  lemma ExpressionShape(st: State, src: TM.Model, opt: OptionsInfo, forest: seq<ComparisonObject>,
                        c: ComparisonObject, act: MergeAction)
    requires IsTopType(c.objectType) && SourceBacked(c, src)
    ensures StepShape(st, ApplyAction(st, src, opt, forest, c, Expression, act), c, Expression, act)
  {
    if act == Delete {
      ExpressionDeleteShape(st, forest, c);
    } else if act != Skip {
      ExpressionCopyShape(st, src, forest, c, act);
    }
  }

  lemma TableDeleteShape(st: State, c: ComparisonObject)
    ensures StepShape(st, DeleteTableStep(st, c), c, Table, Delete)
  {
    var r := DeleteTableStep(st, c);
    if Fires(c, Table, Delete) {
      assert r.target == TM.DeleteTable(st.target, c.name);
      SingleExtends(r.(messages := st.messages), r.messages[|st.messages|]);
    }
  }

  lemma TableCopyShape(st: State, src: TM.Model, forest: seq<ComparisonObject>, c: ComparisonObject, act: MergeAction)
    requires SourceBacked(c, src) && (act == Create || act == Update)
    ensures StepShape(st, TableCopyStep(st, src, forest, c, act), c, Table, act)
  {
    var r := TableCopyStep(st, src, forest, c, act);
    if Fires(c, Table, act) {
      SingleExtends(r.(messages := st.messages), r.messages[|st.messages|]);
      assert r.messages == st.messages + [r.messages[|st.messages|]];
    }
  }

  lemma TableShape(st: State, src: TM.Model, opt: OptionsInfo, forest: seq<ComparisonObject>,
                   c: ComparisonObject, act: MergeAction)
    requires IsTopType(c.objectType) && SourceBacked(c, src)
    ensures StepShape(st, ApplyAction(st, src, opt, forest, c, Table, act), c, Table, act)
  {
    if act == Delete {
      TableDeleteShape(st, c);
    } else if act != Skip {
      TableCopyShape(st, src, forest, c, act);
    }
  }

  lemma CrossCuttingShape(st: State, src: TM.Model, opt: OptionsInfo, forest: seq<ComparisonObject>,
                          c: ComparisonObject, phase: ComparisonObjectType, act: MergeAction)
    requires IsTopType(c.objectType) && SourceBacked(c, src)
    requires phase == Perspective || phase == Role || phase == Culture
    ensures StepShape(st, ApplyAction(st, src, opt, forest, c, phase, act), c, phase, act)
  {
    var r := ApplyAction(st, src, opt, forest, c, phase, act);
    if Fires(c, phase, act) {
      SingleExtends(r.(messages := st.messages), r.messages[|st.messages|]);
      assert r.messages == st.messages + [r.messages[|st.messages|]];
    }
  }

  /** Every helper call has the step shape: one message per firing node, nothing
      otherwise, and only its own category touched. */
  lemma ApplyActionShape(st: State, src: TM.Model, opt: OptionsInfo, forest: seq<ComparisonObject>,
                         c: ComparisonObject, phase: ComparisonObjectType, act: MergeAction)
    requires IsTopType(c.objectType) && SourceBacked(c, src)
    ensures StepShape(st, ApplyAction(st, src, opt, forest, c, phase, act), c, phase, act)
  {
    match phase
    case Connection => ConnectionShape(st, src, opt, forest, c, act);
    case Expression => ExpressionShape(st, src, opt, forest, c, act);
    case Table => TableShape(st, src, opt, forest, c, act);
    case Perspective => CrossCuttingShape(st, src, opt, forest, c, phase, act);
    case Role => CrossCuttingShape(st, src, opt, forest, c, phase, act);
    case Culture => CrossCuttingShape(st, src, opt, forest, c, phase, act);
    case _ =>
  }

  // ---------------------------------------------------------------------------
  // Loops over the forest

  /** The messages one loop is meant to write: one per firing node, in forest order. */
  function FiringReports(nodes: seq<ComparisonObject>, phase: ComparisonObjectType, act: MergeAction): seq<Report> {
    if nodes == [] then []
    else
      var last := nodes[|nodes| - 1];
      FiringReports(nodes[..|nodes| - 1], phase, act) + (if Fires(last, phase, act) then [Report(phase, act, last.name)] else [])
  }

  lemma OnlyTouchesTrans(phase: ComparisonObjectType, a: TM.Model, b: TM.Model, c: TM.Model)
    requires OnlyTouches(phase, a, b) && OnlyTouches(phase, b, c)
    ensures OnlyTouches(phase, a, c)
  {
  }

  lemma ExtendsRefl(st: State)
    ensures Extends(st, st, [])
  {
    assert st.messages[|st.messages|..] == [];
  }

  /** A loop writes exactly the messages of its firing nodes, keeps the backup and
      changes only its category's collections. */
  lemma {:induction false} ActionOverShape(st: State, src: TM.Model, opt: OptionsInfo, forest: seq<ComparisonObject>,
                                           nodes: seq<ComparisonObject>, phase: ComparisonObjectType, act: MergeAction)
    requires Applicable(nodes, src)
    ensures var r := ActionOver(st, src, opt, forest, nodes, phase, act);
      && r.snapshot == st.snapshot
      && OnlyTouches(phase, st.target, r.target)
      && Extends(st, r, FiringReports(nodes, phase, act))
    decreases |nodes|
  {
    if nodes == [] {
      ExtendsRefl(st);
    } else {
      var init := nodes[..|nodes| - 1];
      var last := nodes[|nodes| - 1];
      assert Applicable(init, src) by {
        forall i | 0 <= i < |init| ensures init[i] == nodes[i] { }
      }
      ActionOverShape(st, src, opt, forest, init, phase, act);
      var mid := ActionOver(st, src, opt, forest, init, phase, act);
      ApplyActionShape(mid, src, opt, forest, last, phase, act);
      var r := ApplyAction(mid, src, opt, forest, last, phase, act);
      OnlyTouchesTrans(phase, st.target, mid.target, r.target);
      if Fires(last, phase, act) {
        ExtendsTrans(st, mid, r, FiringReports(init, phase, act), [Report(phase, act, last.name)]);
      } else {
        assert FiringReports(nodes, phase, act) == FiringReports(init, phase, act) + [];
      }
    }
  }

  /** With top-level nodes only, calling the relationship or measure helper with the
      parent node does nothing. */
  lemma {:induction false} RepeatNoOp(st: State, src: TM.Model, opt: OptionsInfo, forest: seq<ComparisonObject>,
                                      c: ComparisonObject, k: nat, phase: ComparisonObjectType, act: MergeAction)
    requires IsTopType(c.objectType) && SourceBacked(c, src)
    requires phase == Relationship || phase == Measure
    ensures Repeat(st, src, opt, forest, c, k, phase, act) == st
  {
    if k > 0 {
      RepeatNoOp(st, src, opt, forest, c, k - 1, phase, act);
    }
  }

  /** The relationship and measure phases change nothing and write nothing: their
      helpers are called with each table's node rather than with its children. */
  lemma {:induction false} ChildPhaseNoOp(st: State, src: TM.Model, opt: OptionsInfo, forest: seq<ComparisonObject>,
                                          nodes: seq<ComparisonObject>, phase: ComparisonObjectType, act: MergeAction)
    requires Applicable(nodes, src)
    requires phase == Relationship || phase == Measure
    ensures ChildActionOver(st, src, opt, forest, nodes, phase, act) == st
    decreases |nodes|
  {
    if nodes != [] {
      var init := nodes[..|nodes| - 1];
      var last := nodes[|nodes| - 1];
      assert Applicable(init, src) by {
        forall i | 0 <= i < |init| ensures init[i] == nodes[i] { }
      }
      ChildPhaseNoOp(st, src, opt, forest, init, phase, act);
      RepeatNoOp(st, src, opt, forest, last, |last.children|, phase, act);
    }
  }

  // ---------------------------------------------------------------------------
  // The phases

  /** The messages of one category: its deletes, then its creates, then its updates. */
  function CategoryReports(forest: seq<ComparisonObject>, cat: ComparisonObjectType): seq<Report> {
    FiringReports(forest, cat, Delete) + FiringReports(forest, cat, Create) + FiringReports(forest, cat, Update)
  }

  lemma {:induction false} RunCategoryShape(st: State, src: TM.Model, opt: OptionsInfo, forest: seq<ComparisonObject>,
                                            cat: ComparisonObjectType)
    requires Applicable(forest, src)
    ensures var r := RunCategory(st, src, opt, forest, cat);
      && r.snapshot == st.snapshot
      && OnlyTouches(cat, st.target, r.target)
      && Extends(st, r, CategoryReports(forest, cat))
  {
    var d := ActionOver(st, src, opt, forest, forest, cat, Delete);
    var c := ActionOver(d, src, opt, forest, forest, cat, Create);
    var u := ActionOver(c, src, opt, forest, forest, cat, Update);
    ActionOverShape(st, src, opt, forest, forest, cat, Delete);
    ActionOverShape(d, src, opt, forest, forest, cat, Create);
    ActionOverShape(c, src, opt, forest, forest, cat, Update);
    OnlyTouchesTrans(cat, st.target, d.target, c.target);
    OnlyTouchesTrans(cat, st.target, c.target, u.target);
    ExtendsTrans(st, d, c, FiringReports(forest, cat, Delete), FiringReports(forest, cat, Create));
    ExtendsTrans(st, c, u, FiringReports(forest, cat, Delete) + FiringReports(forest, cat, Create),
                 FiringReports(forest, cat, Update));
  }

  lemma RunStepsPrefix(st: State, src: TM.Model, opt: OptionsInfo, forest: seq<ComparisonObject>, k: int)
    requires Applicable(forest, src) && 0 < k <= |PhaseOrder|
    ensures RunSteps(st, src, opt, forest, PhaseOrder[..k]) ==
            RunStep(RunSteps(st, src, opt, forest, PhaseOrder[..k - 1]), src, opt, forest, PhaseOrder[k - 1])
  {
    assert PhaseOrder[..k][..k - 1] == PhaseOrder[..k - 1];
  }

  /** The state after the backup and the connection, expression and table phases. */
  function Structural(st: State, src: TM.Model, opt: OptionsInfo, forest: seq<ComparisonObject>): State
    requires Applicable(forest, src)
  {
    var s0 := st.(snapshot := Snapshot(st.target.perspectives, st.target.roles, st.target.cultures));
    RunCategory(RunCategory(RunCategory(s0, src, opt, forest, Connection), src, opt, forest, Expression),
                src, opt, forest, Table)
  }

  /** The first six steps back up the cross-cutting objects and run the structural
      phases; the relationship and measure phases change nothing. */
  lemma {:induction false} FirstSteps(st: State, src: TM.Model, opt: OptionsInfo, forest: seq<ComparisonObject>)
    requires Applicable(forest, src)
    ensures RunSteps(st, src, opt, forest, PhaseOrder[..6]) == Structural(st, src, opt, forest)
  {
    assert PhaseOrder[..0] == [];
    RunStepsPrefix(st, src, opt, forest, 1);
    RunStepsPrefix(st, src, opt, forest, 2);
    RunStepsPrefix(st, src, opt, forest, 3);
    RunStepsPrefix(st, src, opt, forest, 4);
    RunStepsPrefix(st, src, opt, forest, 5);
    RunStepsPrefix(st, src, opt, forest, 6);
    var s3 := RunSteps(st, src, opt, forest, PhaseOrder[..4]);
    ChildPhaseNoOp(s3, src, opt, forest, forest, Relationship, Delete);
    ChildPhaseNoOp(s3, src, opt, forest, forest, Relationship, Create);
    ChildPhaseNoOp(s3, src, opt, forest, forest, Relationship, Update);
    ChildPhaseNoOp(s3, src, opt, forest, forest, Measure, Delete);
    ChildPhaseNoOp(s3, src, opt, forest, forest, Measure, Create);
    ChildPhaseNoOp(s3, src, opt, forest, forest, Measure, Update);
  }

  /** The structural phases leave the cross-cutting objects as backed up. */
  lemma {:induction false} StructuralShape(st: State, src: TM.Model, opt: OptionsInfo, forest: seq<ComparisonObject>)
    requires Applicable(forest, src)
    ensures var r := Structural(st, src, opt, forest);
      && r.snapshot == Snapshot(st.target.perspectives, st.target.roles, st.target.cultures)
      && r.target.perspectives == st.target.perspectives
      && r.target.roles == st.target.roles
      && r.target.cultures == st.target.cultures
      && Extends(st, r, CategoryReports(forest, Connection) + CategoryReports(forest, Expression) +
                        CategoryReports(forest, Table))
  {
    var s0 := st.(snapshot := Snapshot(st.target.perspectives, st.target.roles, st.target.cultures));
    var s1 := RunCategory(s0, src, opt, forest, Connection);
    var s2 := RunCategory(s1, src, opt, forest, Expression);
    RunCategoryShape(s0, src, opt, forest, Connection);
    RunCategoryShape(s1, src, opt, forest, Expression);
    RunCategoryShape(s2, src, opt, forest, Table);
    var s3 := RunCategory(s2, src, opt, forest, Table);
    assert Extends(st, s0, []) by { ExtendsRefl(st); }
    ExtendsTrans(st, s0, s1, [], CategoryReports(forest, Connection));
    assert [] + CategoryReports(forest, Connection) == CategoryReports(forest, Connection);
    ExtendsTrans(st, s1, s2, CategoryReports(forest, Connection), CategoryReports(forest, Expression));
    ExtendsTrans(st, s2, s3, CategoryReports(forest, Connection) + CategoryReports(forest, Expression),
                 CategoryReports(forest, Table));
  }

  /** A restore step changes nothing when the object kind it restores is as backed up. */
  lemma RestoreNoOp(s: State, src: TM.Model, opt: OptionsInfo, forest: seq<ComparisonObject>, cat: ComparisonObjectType)
    requires Applicable(forest, src)
    requires cat == Perspective ==> s.target.perspectives == s.snapshot.perspectives
    requires cat == Role ==> s.target.roles == s.snapshot.roles
    requires cat != Perspective && cat != Role ==> s.target.cultures == s.snapshot.cultures
    ensures RunStep(s, src, opt, forest, Restore(cat)) == s
  {
    var r := RunStep(s, src, opt, forest, Restore(cat));
    assert r.target == s.target;
  }

  /** The culture phase's input: the structural phases, then perspectives and roles. */
  function BeforeCultures(st: State, src: TM.Model, opt: OptionsInfo, forest: seq<ComparisonObject>): State
    requires Applicable(forest, src)
  {
    RunCategory(RunCategory(Structural(st, src, opt, forest), src, opt, forest, Perspective), src, opt, forest, Role)
  }

  lemma {:induction false} StepsToPerspectives(st: State, src: TM.Model, opt: OptionsInfo, forest: seq<ComparisonObject>)
    requires Applicable(forest, src)
    ensures RunSteps(st, src, opt, forest, PhaseOrder[..8]) ==
            RunCategory(Structural(st, src, opt, forest), src, opt, forest, Perspective)
  {
    FirstSteps(st, src, opt, forest);
    StructuralShape(st, src, opt, forest);
    var s6 := Structural(st, src, opt, forest);
    RunStepsPrefix(st, src, opt, forest, 7);
    RestoreNoOp(s6, src, opt, forest, Perspective);
    RunStepsPrefix(st, src, opt, forest, 8);
  }

  lemma {:induction false} StepsThroughRoles(st: State, src: TM.Model, opt: OptionsInfo, forest: seq<ComparisonObject>)
    requires Applicable(forest, src)
    ensures RunSteps(st, src, opt, forest, PhaseOrder[..10]) == BeforeCultures(st, src, opt, forest)
  {
    StepsToPerspectives(st, src, opt, forest);
    StructuralShape(st, src, opt, forest);
    var s6 := Structural(st, src, opt, forest);
    var s7 := RunCategory(s6, src, opt, forest, Perspective);
    RunCategoryShape(s6, src, opt, forest, Perspective);
    RunStepsPrefix(st, src, opt, forest, 9);
    RestoreNoOp(s7, src, opt, forest, Role);
    RunStepsPrefix(st, src, opt, forest, 10);
  }

  /** The role clean-up step after the role phase changes nothing. */
  lemma {:induction false} RoleCleanupNoOp(st: State, src: TM.Model, opt: OptionsInfo, forest: seq<ComparisonObject>)
    requires Applicable(forest, src)
    ensures RunSteps(st, src, opt, forest, PhaseOrder[..11]) == BeforeCultures(st, src, opt, forest)
  {
    StepsThroughRoles(st, src, opt, forest);
    RunStepsPrefix(st, src, opt, forest, 11);
  }

  /** The whole run of ValidateSelection's steps: the backup, then the connection,
      expression, table, perspective, role and culture categories in that order. The
      restore steps and the relationship and measure phases change nothing. */
  lemma {:induction false} PhasesUnfold(st: State, src: TM.Model, opt: OptionsInfo, forest: seq<ComparisonObject>)
    requires Applicable(forest, src)
    ensures RunSteps(st, src, opt, forest, PhaseOrder) ==
      RunCategory(BeforeCultures(st, src, opt, forest), src, opt, forest, Culture)
  {
    RoleCleanupNoOp(st, src, opt, forest);
    StructuralShape(st, src, opt, forest);
    var s6 := Structural(st, src, opt, forest);
    var s7 := RunCategory(s6, src, opt, forest, Perspective);
    var s9 := BeforeCultures(st, src, opt, forest);
    RunCategoryShape(s6, src, opt, forest, Perspective);
    RunCategoryShape(s7, src, opt, forest, Role);
    RunStepsPrefix(st, src, opt, forest, 12);
    RestoreNoOp(s9, src, opt, forest, Culture);
    RunStepsPrefix(st, src, opt, forest, 13);
    assert PhaseOrder[..13] == PhaseOrder;
  }

  /** The messages ValidateSelection is meant to write, in order: for each of the
      connection, expression, table, perspective, role and culture categories, one
      message per node that is deleted, then created, then updated. Relationships
      and measures get none. */
  function PlannedReports(forest: seq<ComparisonObject>): seq<Report> {
    CategoryReports(forest, Connection) + CategoryReports(forest, Expression) + CategoryReports(forest, Table) +
    CategoryReports(forest, Perspective) + CategoryReports(forest, Role) + CategoryReports(forest, Culture)
  }

  /** The run of all phases writes exactly the planned messages after the ones already there. */
  lemma {:induction false} ValidationReports(st: State, src: TM.Model, opt: OptionsInfo, forest: seq<ComparisonObject>)
    requires Applicable(forest, src)
    ensures Extends(st, RunSteps(st, src, opt, forest, PhaseOrder), PlannedReports(forest))
  {
    PhasesUnfold(st, src, opt, forest);
    StructuralShape(st, src, opt, forest);
    var s6 := Structural(st, src, opt, forest);
    var s7 := RunCategory(s6, src, opt, forest, Perspective);
    var s9 := RunCategory(s7, src, opt, forest, Role);
    var s12 := RunCategory(s9, src, opt, forest, Culture);
    RunCategoryShape(s6, src, opt, forest, Perspective);
    RunCategoryShape(s7, src, opt, forest, Role);
    RunCategoryShape(s9, src, opt, forest, Culture);
    var a := CategoryReports(forest, Connection) + CategoryReports(forest, Expression) + CategoryReports(forest, Table);
    ExtendsTrans(st, s6, s7, a, CategoryReports(forest, Perspective));
    ExtendsTrans(st, s7, s9, a + CategoryReports(forest, Perspective), CategoryReports(forest, Role));
    ExtendsTrans(st, s9, s12, a + CategoryReports(forest, Perspective) + CategoryReports(forest, Role),
                 CategoryReports(forest, Culture));
  }

  // ---------------------------------------------------------------------------
  // Message order

  function CategoryIndex(t: ComparisonObjectType): int {
    match t
    case Connection => 0
    case Expression => 1
    case Table => 2
    case Perspective => 3
    case Role => 4
    case Culture => 5
    case _ => 6
  }

  function ActionIndex(a: MergeAction): int {
    match a
    case Delete => 0
    case Create => 1
    case Update => 2
    case Skip => 3
  }

  /** Messages are ordered by phase, then by action within a phase. */
  function Rank(r: Report): int {
    3 * CategoryIndex(r.category) + ActionIndex(r.action)
  }

  /** No message ranks above x, and none ranks above the one after it; written
      from the back, so that only the last message is unfolded. */
  predicate RankedUpTo(s: seq<Report>, x: int)
    decreases |s|
  {
    |s| == 0 || (Rank(s[|s| - 1]) <= x && RankedUpTo(s[..|s| - 1], Rank(s[|s| - 1])))
  }

  /** The pairwise reading of RankedUpTo. */
  lemma {:induction false} RankedPairs(s: seq<Report>, x: int)
    requires RankedUpTo(s, x)
    ensures forall i :: 0 <= i < |s| ==> Rank(s[i]) <= x
    ensures forall i, j :: 0 <= i < j < |s| ==> Rank(s[i]) <= Rank(s[j])
    decreases |s|
  {
    if s != [] {
      var init := s[..|s| - 1];
      RankedPairs(init, Rank(s[|s| - 1]));
      assert forall i :: 0 <= i < |init| ==> init[i] == s[i];
    }
  }

  lemma {:induction false} FiringLabels(nodes: seq<ComparisonObject>, phase: ComparisonObjectType, act: MergeAction)
    ensures forall k :: 0 <= k < |FiringReports(nodes, phase, act)| ==>
      FiringReports(nodes, phase, act)[k].category == phase && FiringReports(nodes, phase, act)[k].action == act
    decreases |nodes|
  {
    if nodes != [] {
      FiringLabels(nodes[..|nodes| - 1], phase, act);
    }
  }

  lemma {:induction false} AppendBlock(s: seq<Report>, b: seq<Report>, x: int, y: int)
    requires RankedUpTo(s, x) && x <= y
    requires forall k :: 0 <= k < |b| ==> Rank(b[k]) == y
    ensures RankedUpTo(s + b, y)
    decreases |b|
  {
    if b == [] {
      assert s + b == s;
    } else {
      var init := b[..|b| - 1];
      AppendBlock(s, init, x, y);
      assert (s + b)[..|s + b| - 1] == s + init;
      assert (s + b)[|s + b| - 1] == b[|b| - 1];
    }
  }

  /** A delete block, a create block and an update block of phase rank x after
      messages ranked below x. */
  lemma {:induction false} AppendBlocks(s: seq<Report>, d: seq<Report>, c: seq<Report>, u: seq<Report>, x: int)
    requires RankedUpTo(s, x - 1)
    requires forall k :: 0 <= k < |d| ==> Rank(d[k]) == x
    requires forall k :: 0 <= k < |c| ==> Rank(c[k]) == x + 1
    requires forall k :: 0 <= k < |u| ==> Rank(u[k]) == x + 2
    ensures RankedUpTo(s + (d + c + u), x + 2)
  {
    AppendBlock(s, d, x - 1, x);
    AppendBlock(s + d, c, x, x + 1);
    AppendBlock(s + d + c, u, x + 1, x + 2);
    ConcatAssoc(s, d, c, u);
  }

  lemma ConcatAssoc(s: seq<Report>, d: seq<Report>, c: seq<Report>, u: seq<Report>)
    ensures s + (d + c + u) == s + d + c + u
  {
  }

  lemma {:induction false} CategoryRanked(s: seq<Report>, forest: seq<ComparisonObject>, cat: ComparisonObjectType,
                                          x: int)
    requires x == 3 * CategoryIndex(cat)
    requires RankedUpTo(s, x - 1)
    ensures RankedUpTo(s + CategoryReports(forest, cat), x + 2)
  {
    FiringLabels(forest, cat, Delete);
    FiringLabels(forest, cat, Create);
    FiringLabels(forest, cat, Update);
    AppendBlocks(s, FiringReports(forest, cat, Delete), FiringReports(forest, cat, Create),
                 FiringReports(forest, cat, Update), x);
  }

  lemma {:induction false} PlanRanked(forest: seq<ComparisonObject>)
    ensures RankedUpTo(PlannedReports(forest), 17)
  {
    var c := CategoryReports(forest, Connection);
    var e := CategoryReports(forest, Expression);
    var t := CategoryReports(forest, Table);
    var p := CategoryReports(forest, Perspective);
    var r := CategoryReports(forest, Role);
    var s1 := [] + c;
    CategoryRanked([], forest, Connection, 0);
    CategoryRanked(s1, forest, Expression, 3);
    CategoryRanked(s1 + e, forest, Table, 6);
    CategoryRanked(s1 + e + t, forest, Perspective, 9);
    CategoryRanked(s1 + e + t + p, forest, Role, 12);
    CategoryRanked(s1 + e + t + p + r, forest, Culture, 15);
    assert s1 == c;
  }

  /** The messages of one ValidateSelection run come phase by phase in the fixed
      order, deletes before creates before updates within a phase. */
  lemma MessagesInPhaseOrder(st: State, src: TM.Model, opt: OptionsInfo, forest: seq<ComparisonObject>)
    requires Applicable(forest, src)
    ensures var r := RunSteps(st, src, opt, forest, PhaseOrder);
      forall i, j :: |st.messages| <= i < j < |r.messages| ==>
        Rank(ReportOf(r.messages[i])) <= Rank(ReportOf(r.messages[j]))
  {
    var r := RunSteps(st, src, opt, forest, PhaseOrder);
    ValidationReports(st, src, opt, forest);
    PlanRanked(forest);
    RankedPairs(PlannedReports(forest), 17);
    var e := r.messages[|st.messages|..];
    forall i, j | |st.messages| <= i < j < |r.messages|
      ensures Rank(ReportOf(r.messages[i])) <= Rank(ReportOf(r.messages[j]))
    {
      assert r.messages[i] == e[i - |st.messages|] && r.messages[j] == e[j - |st.messages|];
    }
  }
}
