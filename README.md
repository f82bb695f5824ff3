# Tabular model comparison and merge

A Dafny model of the comparison engine of BISM Normalizer for tabular models
at compatibility level 1200 and above. The engine does three things:

- **Compare** (`CompareTabularModels`) builds a forest of comparison objects
  from a source and a target model. It makes one node per connection, table,
  expression, perspective, culture and role that exists on either side. Each
  table node gets a child per relationship and per measure or KPI of that
  table. A node's status (missing in target, missing in source, different
  definitions, same definition) fixes its default merge action (Create,
  Delete, Update, Skip).
- **Validate** (`ValidateSelection`) applies the selected actions to the
  target model in a fixed order of phases, writing one validation message per
  action. Before any phase it refuses to run when a live database changed on
  the server since the comparison. Deleting connections and expressions, and
  creating or updating expressions and tables, are guarded by the
  M-dependency checks (`CheckToDependenciesInTarget`,
  `CheckFromDependenciesInSource`). A blocked action leaves the target alone
  and writes a warning.
- **Process** (`GetTablesToProcess`) lists the tables to process after
  deployment, sorted by name. The list is either the affected tables (found by
  the recursive `ProcessAffectedTables`) or every target table, and it is
  empty when processing is switched off.

Modules:

| file | module | models |
|---|---|---|
| ordering.dfy | `Ordering` | the assumed sort key (object type, then name), an insertion sort, sortedness and uniqueness |
| tabular_model.dfy | `TabularModel` | the parts of a tabular model the engine reads or changes: named maps of connections, tables with their partitions, relationships, measures, expressions, perspectives, cultures and roles, plus the M-dependency list |
| comparison_object.dfy | `ComparisonObjects` | comparison objects, statuses, default actions, the two-sided classification of a name, and the node count |
| differ.dfy | `Differ` | the comparison as a set of methods with loop invariants, and `ForestSpec`, the declarative description of the forest they build, with lemmas about it |
| dependencies.dfy | `Dependencies` | the two dependency checks as functions of the dependency list and the forest |
| apply.dfy | `Apply` | each Delete/Create/Update helper as a step function on the target model and the message list; the phase order of the validation |
| apply_properties.dfy | `ApplyProperties` | what each phase may change, which messages the whole validation writes and in which order |
| helper_rules.dfy | `HelperRules` | per-helper rules: when an action is carried out and when it is blocked |
| processing.dfy | `Processing` | the processing-table collection (a class) and the set of affected tables |
| tabular_comparison.dfy | `TabularComparison` | the `Comparison` class: its fields and its methods, proved against the functions above |

Some behaviours are reproduced exactly as the code is written:

- The relationship and measure phases of the validation pass the parent
  table node to the helper, not the child. The helpers test the node's type,
  so these phases change nothing (`ApplyProperties.ChildPhaseNoOp`).
- `CreateTable` and `UpdateTable` loop over the source table's partitions,
  but each pass runs the same table-level dependency check with the same
  arguments (the partition is not used). The check thus runs once per
  partition with one result, and not at all for a table without partitions.
- The measure nodes of a table that exists only in the target are all typed
  Measure, KPIs included. Everywhere else a KPI gets a Kpi node.
- `CompareTabularModels` does not clear the forest first. Nodes from an
  earlier comparison remain in it.
- KPI actions are reported under the Measure category.

## Model

Source paths are relative to the repository root.

| member | source | states |
|---|---|---|
| Ordering.SortBy | BismNormalizer/TabularCompare/TabularMetadata/Comparison.cs:513-525 | the sort returns a permutation of its input, of the same length |
| Ordering.SortBySorted | BismNormalizer/TabularCompare/TabularMetadata/Comparison.cs:515 | the sorted list is ordered by the assumed order (type rank, then name) |
| Ordering.SortByStrict | BismNormalizer/TabularCompare/TabularMetadata/Comparison.cs:515 | a list with no key twice sorts to a strictly increasing list |
| Ordering.StrictlySortedUnique | BismNormalizer/TabularCompare/TabularMetadata/Comparison.cs:515 | two strictly sorted lists with the same elements are equal, so the result of the sort does not depend on insertion order |
| Ordering.KeyLtStrictTotal | BismNormalizer/TabularCompare/TabularMetadata/Comparison.cs:515 | the order on keys is irreflexive, asymmetric, transitive and total |
| ComparisonObjects.KeyInjective | BismNormalizer/TabularCompare/TabularMetadata/Comparison.cs:515 | two nodes have the same sort key iff they have the same type and name |
| ComparisonObjects.ClassifyRule | BismNormalizer/TabularCompare/TabularMetadata/Comparison.cs:77-118 | a name only in the source is MissingInTarget/Create; only in the target MissingInSource/Delete; in both, SameDefinition/Skip or DifferentDefinitions/Update by definition equality; the node has no children |
| ComparisonObjects.SelectionsRule | BismNormalizer/TabularCompare/TabularMetadata/Comparison.cs:361-459 | in merge mode a perspective or culture is the same when the target contains the source's selections; otherwise when each contains the other; any other outcome is an Update |
| ComparisonObjects.MeasureType | BismNormalizer/TabularCompare/TabularMetadata/Comparison.cs:149-154 | a measure node is typed Kpi iff the measure is a KPI, and Measure otherwise |
| ComparisonObjects.TotalNodesSort | BismNormalizer/TabularCompare/TabularMetadata/Comparison.cs:513-525 | sorting does not change the number of nodes |
| TabularModel.RelationshipsOf | BismNormalizer/TabularCompare/TabularMetadata/Comparison.cs:138 | a table's relationships are exactly the model's relationships that start at it |
| TabularModel.MeasuresOf | BismNormalizer/TabularCompare/TabularMetadata/Comparison.cs:149 | a table's measures are exactly the model's measures whose table it is |
| TabularModel.DependenciesReferenceTo | BismNormalizer/TabularCompare/TabularMetadata/Comparison.cs:998 | the selected edges are exactly those whose referenced object is the given type and name |
| TabularModel.DependenciesReferenceFrom | BismNormalizer/TabularCompare/TabularMetadata/Comparison.cs:1032-1037 | the assumed filter of the dependency collection, called at 1037: the selected edges are exactly those whose referencing object (the partition's table, for a partition) is the given type and name |
| TabularModel.DeleteTable | BismNormalizer/TabularCompare/TabularMetadata/Comparison.cs:932-939 | the assumed effect of the target model's DeleteTable, called at 936: the table goes, with the relationships that start at it and its measures, and nothing else (in particular no perspective, role or culture content) |
| Differ.DiffCategory | BismNormalizer/TabularCompare/TabularMetadata/Comparison.cs:75-120 | the two-pass match of connections, expressions, perspectives, cultures or roles: one node per name of either side, names distinct, each node classified by its presence and definition; the count grows by the number of nodes |
| Differ.DiffMeasures | BismNormalizer/TabularCompare/TabularMetadata/Comparison.cs:226-271 | the two-pass match of a table's measures and KPIs: one node per measure name of either side, each typed and classified as the code does |
| Differ.DiffTable | BismNormalizer/TabularCompare/TabularMetadata/Comparison.cs:124-306 | the node of one table is classified like any other, and its children are the sorted match of its relationships and measures over the side(s) that have the table; the count grows by the node and its children |
| Differ.ChildrenBuilt | BismNormalizer/TabularCompare/TabularMetadata/Comparison.cs:135-306 | the sorted relationship and measure nodes of a table are strictly ordered and cover exactly the relationship and measure names of both sides |
| Differ.AddTable | BismNormalizer/TabularCompare/TabularMetadata/Comparison.cs:124-273 | appending the node of a table not yet visited keeps names distinct and every node right, and keeps the count equal to the node total |
| Differ.DiffSourceTables | BismNormalizer/TabularCompare/TabularMetadata/Comparison.cs:124-273 | the loop over source tables makes a node for exactly the source table names |
| Differ.VisitTargetTable | BismNormalizer/TabularCompare/TabularMetadata/Comparison.cs:275-308 | a target table adds a node iff it is not in the source; the name set then includes it |
| Differ.DiffTargetOnlyTables | BismNormalizer/TabularCompare/TabularMetadata/Comparison.cs:275-308 | after the loop over target tables there is one node per table name of either side |
| Differ.DiffTables | BismNormalizer/TabularCompare/TabularMetadata/Comparison.cs:122-310 | the table pass produces one right node per table name of either side, and the matching count |
| Differ.AppendDefinitions | BismNormalizer/TabularCompare/TabularMetadata/Comparison.cs:312-357 | appending the nodes of connections, expressions or roles extends the partial forest to the next type rank |
| Differ.AppendSelections | BismNormalizer/TabularCompare/TabularMetadata/Comparison.cs:359-461 | appending the nodes of perspectives or cultures extends the partial forest to the next type rank |
| Differ.AppendTables | BismNormalizer/TabularCompare/TabularMetadata/Comparison.cs:122-310 | appending the table nodes extends the partial forest past tables |
| Differ.AppendOptional | BismNormalizer/TabularCompare/TabularMetadata/Comparison.cs:361-511 | perspectives, cultures and roles are compared only when their option is set; otherwise no node of that type appears |
| Differ.DiffFixed | BismNormalizer/TabularCompare/TabularMetadata/Comparison.cs:75-357 | connections, tables and expressions are always compared, and the count equals the nodes made |
| Differ.DiffOptional | BismNormalizer/TabularCompare/TabularMetadata/Comparison.cs:359-511 | the optional categories complete the partial forest |
| Differ.AddPart | BismNormalizer/TabularCompare/TabularMetadata/Comparison.cs:71-511 | appending one category's distinct, right and complete nodes after lower-ranked ones keeps keys distinct and covers every name in scope up to that type |
| Differ.FinishForest | BismNormalizer/TabularCompare/TabularMetadata/Comparison.cs:513-525 | the sorted complete node list meets the forest description, with the same node count |
| Differ.DiffModels | BismNormalizer/TabularCompare/TabularMetadata/Comparison.cs:71-525 | the comparison builds a forest that meets the forest description and counts every node, parents and children |
| Differ.ForestWellShaped | BismNormalizer/TabularCompare/TabularMetadata/Comparison.cs:71-525 | in the forest only tables have children, children are relationships, measures or KPIs, and there are no grandchildren; every action is the default or Skip |
| Differ.TopRightInScope | BismNormalizer/TabularCompare/TabularMetadata/Comparison.cs:71-511 | every node the comparison emits is for a name that exists on a side, in a category that is being compared |
| Differ.ForestComplete | BismNormalizer/TabularCompare/TabularMetadata/Comparison.cs:71-511 | every name in scope has a node |
| Differ.ForestUnique | BismNormalizer/TabularCompare/TabularMetadata/Comparison.cs:513-525 | no type and name has two nodes |
| Differ.ForestCoverage | BismNormalizer/TabularCompare/TabularMetadata/Comparison.cs:71-525 | a node of a type and name exists iff that name is in scope for that type, and then there is exactly one |
| Differ.ChildrenUnique | BismNormalizer/TabularCompare/TabularMetadata/Comparison.cs:135-306 | a table's children are determined by the two models |
| Differ.TopRightUnique | BismNormalizer/TabularCompare/TabularMetadata/Comparison.cs:71-511 | two right nodes with the same key are equal |
| Differ.ForestDeterministic | BismNormalizer/TabularCompare/TabularMetadata/Comparison.cs:71-525 | the forest is determined by the two models and the options, whatever order the collections are iterated in |
| Differ.ForestOfIdenticalModels | BismNormalizer/TabularCompare/TabularMetadata/Comparison.cs:71-525 | comparing a model with itself marks every node and child SameDefinition with action Skip |
| Differ.ChildrenOfCreatedTable | BismNormalizer/TabularCompare/TabularMetadata/Comparison.cs:128-157 | a table missing in the target has a child per source relationship and measure, each to be created, measures typed by KPI-ness |
| Differ.ChildrenOfDeletedTable | BismNormalizer/TabularCompare/TabularMetadata/Comparison.cs:277-306 | a table missing in the source has a child per target relationship and measure, each to be deleted, all typed Relationship or Measure |
| Differ.MeasuresOfMatchedTable | BismNormalizer/TabularCompare/TabularMetadata/Comparison.cs:179-271 | a table on both sides has children for the relationship and measure names of both; a measure node is a KPI by the source measure when the source table has it, else by the target |
| Dependencies.ToItemsOverMembers | BismNormalizer/TabularCompare/TabularMetadata/Comparison.cs:1001-1027 | the inner loop of the reverse check writes an edge's dependent exactly when some node marks it as kept |
| Dependencies.ToWarningsMembers | BismNormalizer/TabularCompare/TabularMetadata/Comparison.cs:993-1030 | the reverse check lists exactly the dependents (expressions, or partitions by table) that are missing in the source and kept with Skip |
| Dependencies.CheckToEmpty | BismNormalizer/TabularCompare/TabularMetadata/Comparison.cs:993-1030 | the reverse check returns nothing iff no edge into the object has a kept dependent |
| Dependencies.FromItemsOverMembers | BismNormalizer/TabularCompare/TabularMetadata/Comparison.cs:1040-1068 | the inner loop of the forward check writes an edge's prerequisite exactly when a node shows it missing from the target and not created |
| Dependencies.FromWarningsMembers | BismNormalizer/TabularCompare/TabularMetadata/Comparison.cs:1032-1071 | the forward check lists exactly the referenced expressions or connections that are missing in the target, absent from it and left with Skip |
| Dependencies.CheckFromEmpty | BismNormalizer/TabularCompare/TabularMetadata/Comparison.cs:1032-1071 | the forward check returns nothing iff no edge out of the object has a missing prerequisite |
| Dependencies.QueryPartitionItemsEmpty | BismNormalizer/TabularCompare/TabularMetadata/Comparison.cs:830-841 | no legacy query partition is listed iff no target table with query partitions uses the connection |
| HelperRules.KeptIff | BismNormalizer/TabularCompare/TabularMetadata/Comparison.cs:993-1030 | the reverse check is empty iff the object has no kept dependent |
| HelperRules.MissingIff | BismNormalizer/TabularCompare/TabularMetadata/Comparison.cs:1032-1071 | the forward check is empty iff the object has no missing prerequisite |
| HelperRules.DeleteConnectionRule | BismNormalizer/TabularCompare/TabularMetadata/Comparison.cs:822-851 | a connection is deleted with an informational message iff nothing blocks it; otherwise the target is unchanged and a warning lists every blocker |
| HelperRules.ConnectionBlockersMembers | BismNormalizer/TabularCompare/TabularMetadata/Comparison.cs:822-849 | the blockers of a connection delete are its kept dependents plus every query partition of a table that uses it |
| HelperRules.KeptExpressionBlocksConnectionDelete | BismNormalizer/TabularCompare/TabularMetadata/Comparison.cs:822-851 | an expression that uses the connection and is kept in the target blocks the delete |
| HelperRules.CopyConnectionRule | BismNormalizer/TabularCompare/TabularMetadata/Comparison.cs:853-869 | creating or updating a connection always copies the source's and reports it |
| HelperRules.DeleteExpressionRule | BismNormalizer/TabularCompare/TabularMetadata/Comparison.cs:873-890 | an expression is deleted iff it has no kept dependent; otherwise the target is unchanged and a warning with blockers is written |
| HelperRules.CopyExpressionRule | BismNormalizer/TabularCompare/TabularMetadata/Comparison.cs:892-928 | an expression is created or updated from the source iff it has no missing prerequisite; otherwise the target is unchanged and a warning with blockers is written |
| HelperRules.DeleteTableRule | BismNormalizer/TabularCompare/TabularMetadata/Comparison.cs:932-939 | deleting a table always succeeds, takes its relationships and measures with it, and reports it |
| HelperRules.CopyTableRule | BismNormalizer/TabularCompare/TabularMetadata/Comparison.cs:941-989 | a table is created or updated from the source unless it has partitions and the table-level forward check, which the partition loop repeats with the same arguments, finds a missing prerequisite; then the target is unchanged and a warning is written |
| HelperRules.MissingExpressionBlocksTableCreate | BismNormalizer/TabularCompare/TabularMetadata/Comparison.cs:941-964 | a partition that reads an expression the target lacks and the user skips blocks the table's creation |
| HelperRules.TableWithoutPartitionsProceeds | BismNormalizer/TabularCompare/TabularMetadata/Comparison.cs:946-954 | a source table without partitions is never blocked |
| HelperRules.DeleteRelationshipAlreadyRemoved | BismNormalizer/TabularCompare/TabularMetadata/Comparison.cs:1075-1093 | deleting a relationship that is already gone reports success and changes nothing |
| HelperRules.DeleteRelationshipRule | BismNormalizer/TabularCompare/TabularMetadata/Comparison.cs:1075-1093 | deleting a relationship removes it, and only it, and reports it |
| HelperRules.CopyRelationshipRule | BismNormalizer/TabularCompare/TabularMetadata/Comparison.cs:1095-1135 | a relationship is created or updated iff both its tables exist in the target; otherwise a warning is written and the target is unchanged |
| HelperRules.CreateMeasureCollision | BismNormalizer/TabularCompare/TabularMetadata/Comparison.cs:1160-1184 | a measure name that a target table already has is not created; a warning is written |
| HelperRules.CreateMeasureRule | BismNormalizer/TabularCompare/TabularMetadata/Comparison.cs:1160-1184 | otherwise the source measure is added to the named table, and only it |
| HelperRules.DeleteMeasureRule | BismNormalizer/TabularCompare/TabularMetadata/Comparison.cs:1139-1158 | deleting a measure or KPI removes it if present and always reports success |
| HelperRules.KpiReportedAsMeasure | BismNormalizer/TabularCompare/TabularMetadata/Comparison.cs:1186-1198 | a KPI update is reported under the Measure category |
| HelperRules.UpdatePerspectiveRule | BismNormalizer/TabularCompare/TabularMetadata/Comparison.cs:716-723 | with the assumed meaning of the target model's UpdatePerspective, called at 720: in merge mode the source's selections are added to the target's; otherwise they replace them |
| HelperRules.UpdateCultureRule | BismNormalizer/TabularCompare/TabularMetadata/Comparison.cs:784-791 | with the assumed meaning of UpdateCulture, called at 788: the same for cultures and their translations |
| ApplyProperties.ReportsOfAppend | BismNormalizer/TabularCompare/TabularMetadata/Comparison.cs:577-791 | the reports of two message lists joined are the joined reports |
| ApplyProperties.ApplyActionShape | BismNormalizer/TabularCompare/TabularMetadata/Comparison.cs:822-1198 | a helper called on a node changes only its own category of the target and writes one message about that node when it acts, none otherwise |
| ApplyProperties.ConnectionShape | BismNormalizer/TabularCompare/TabularMetadata/Comparison.cs:822-869 | the same for the connection helpers |
| ApplyProperties.ExpressionShape | BismNormalizer/TabularCompare/TabularMetadata/Comparison.cs:873-928 | the same for the expression helpers |
| ApplyProperties.TableShape | BismNormalizer/TabularCompare/TabularMetadata/Comparison.cs:932-989 | the same for the table helpers |
| ApplyProperties.CrossCuttingShape | BismNormalizer/TabularCompare/TabularMetadata/Comparison.cs:694-791 | the same for perspectives, roles and cultures |
| ApplyProperties.ActionOverShape | BismNormalizer/TabularCompare/TabularMetadata/Comparison.cs:584-596 | one loop over the forest changes only that category and writes one message per node that the helper acts on, in forest order |
| ApplyProperties.RepeatNoOp | BismNormalizer/TabularCompare/TabularMetadata/Comparison.cs:638-690 | calling a relationship or measure helper once per child with the parent node changes nothing |
| ApplyProperties.ChildPhaseNoOp | BismNormalizer/TabularCompare/TabularMetadata/Comparison.cs:636-692 | so the relationship and measure phases, as written, leave the target and the messages unchanged |
| ApplyProperties.RunCategoryShape | BismNormalizer/TabularCompare/TabularMetadata/Comparison.cs:581-634 | a category's delete, create and update loops change only that category and write its deletes, then its creates, then its updates |
| ApplyProperties.RunStepsPrefix | BismNormalizer/TabularCompare/TabularMetadata/Comparison.cs:568-793 | running the first k phases is running the first k-1 and then phase k |
| ApplyProperties.FirstSteps | BismNormalizer/TabularCompare/TabularMetadata/Comparison.cs:570-692 | the first six phases are the backup followed by the connection, expression, table, relationship and measure phases |
| ApplyProperties.StructuralShape | BismNormalizer/TabularCompare/TabularMetadata/Comparison.cs:570-692 | under the assumed target-model operations, which leave perspective, role and culture content alone, the structural phases change only connections, expressions, tables, relationships and measures, so the backup still equals the target's perspectives, roles and cultures |
| ApplyProperties.RestoreNoOp | BismNormalizer/TabularCompare/TabularMetadata/Comparison.cs:697 | restoring a category that still equals its backup changes nothing; in the model every restore is such a case |
| ApplyProperties.StepsToPerspectives | BismNormalizer/TabularCompare/TabularMetadata/Comparison.cs:694-725 | the perspective restore and perspective phase follow the structural phases |
| ApplyProperties.StepsThroughRoles | BismNormalizer/TabularCompare/TabularMetadata/Comparison.cs:727-755 | the role restore and role phase follow the perspective phases |
| ApplyProperties.RoleCleanupNoOp | BismNormalizer/TabularCompare/TabularMetadata/Comparison.cs:757 | the role clean-up changes nothing |
| ApplyProperties.PhasesUnfold | BismNormalizer/TabularCompare/TabularMetadata/Comparison.cs:568-793 | the whole validation is the structural phases, then perspectives, roles and cultures, each restored from the backup first |
| ApplyProperties.ValidationReports | BismNormalizer/TabularCompare/TabularMetadata/Comparison.cs:568-793 | the validation keeps the messages already written and appends exactly one message per node acted on, phase by phase and action by action |
| ApplyProperties.RankedPairs | BismNormalizer/TabularCompare/TabularMetadata/Comparison.cs:568-793 | a list ranked from the back has every rank bounded and ranks in non-decreasing order |
| ApplyProperties.PlanRanked | BismNormalizer/TabularCompare/TabularMetadata/Comparison.cs:568-793 | the planned messages are ordered by category phase and, within a phase, deletes before creates before updates |
| ApplyProperties.MessagesInPhaseOrder | BismNormalizer/TabularCompare/TabularMetadata/Comparison.cs:568-793 | every message the validation writes ranks no lower than the messages before it |
| TabularComparison.ForestApplicable | BismNormalizer/TabularCompare/TabularMetadata/Comparison.cs:577-791 | every node of a compared forest is top level and has its source object whenever its action copies from the source |
| TabularComparison.ConnectionBlockersFound | BismNormalizer/TabularCompare/TabularMetadata/Comparison.cs:826-849 | the reverse check joined with the partition scan lists exactly the blockers of the connection, and both are empty iff there are none |
| TabularComparison.Rediff | BismNormalizer/TabularCompare/TabularMetadata/Comparison.cs:71-525 | the result is sorted and is, as a multiset, the nodes already in the list plus a forest of the two models, and the count is that forest's node count alone; starting from an empty list the result is that forest; every node of the result is an old node or a top-level node of the comparison |
| TabularComparison.NewNodesRight | BismNormalizer/TabularCompare/TabularMetadata/Comparison.cs:71-525 | every node of the re-sorted, extended list is an old node or a well-formed top-level node of the new comparison |
| TabularComparison.Comparison.constructor | BismNormalizer/TabularCompare/TabularMetadata/Comparison.cs:46-51 | a new comparison holds the two models and the options, an empty forest, no messages and no uncommitted changes |
| TabularComparison.Comparison.CompareTabularModels | BismNormalizer/TabularCompare/TabularMetadata/Comparison.cs:71-531 | the forest becomes the sorted union (as a multiset) of the nodes already present and a forest of the two models; the count restarts and is that forest's node count alone; from an empty forest the result is exactly that forest; the changes flag is cleared and both schema timestamps recorded |
| TabularComparison.Comparison.CheckToDependenciesInTarget | BismNormalizer/TabularCompare/TabularMetadata/Comparison.cs:993-1030 | the nested loops append the reverse check's entries to the list passed in |
| TabularComparison.Comparison.KeptDependentsOf | BismNormalizer/TabularCompare/TabularMetadata/Comparison.cs:1001-1027 | the inner loop over the forest appends one entry per node that keeps the dependent |
| TabularComparison.Comparison.CheckFromDependenciesInSource | BismNormalizer/TabularCompare/TabularMetadata/Comparison.cs:1032-1071 | the nested loops append the forward check's entries to the list passed in |
| TabularComparison.Comparison.MissingPrerequisitesOf | BismNormalizer/TabularCompare/TabularMetadata/Comparison.cs:1040-1068 | the inner loop over the forest appends one entry per node that leaves the prerequisite missing |
| TabularComparison.Comparison.QueryPartitionsUsing | BismNormalizer/TabularCompare/TabularMetadata/Comparison.cs:830-841 | the scan of target tables and partitions finds every query partition of a table that uses the connection |
| TabularComparison.Comparison.PartitionWarnings | BismNormalizer/TabularCompare/TabularMetadata/Comparison.cs:946-952 | the partition loop leaves the forward check's list when the table has partitions, and the empty list when it has none |
| TabularComparison.Comparison.DeleteConnection | BismNormalizer/TabularCompare/TabularMetadata/Comparison.cs:822-851 | the target and messages become those of the connection delete step |
| TabularComparison.Comparison.CreateConnection | BismNormalizer/TabularCompare/TabularMetadata/Comparison.cs:853-860 | the target and messages become those of the connection create step |
| TabularComparison.Comparison.UpdateConnection | BismNormalizer/TabularCompare/TabularMetadata/Comparison.cs:862-869 | the target and messages become those of the connection update step |
| TabularComparison.Comparison.DeleteExpression | BismNormalizer/TabularCompare/TabularMetadata/Comparison.cs:873-890 | the target and messages become those of the expression delete step |
| TabularComparison.Comparison.CreateExpression | BismNormalizer/TabularCompare/TabularMetadata/Comparison.cs:892-909 | the target and messages become those of the guarded expression copy |
| TabularComparison.Comparison.UpdateExpression | BismNormalizer/TabularCompare/TabularMetadata/Comparison.cs:911-928 | the target and messages become those of the guarded expression copy |
| TabularComparison.Comparison.DeleteTable | BismNormalizer/TabularCompare/TabularMetadata/Comparison.cs:932-939 | the target and messages become those of the table delete step |
| TabularComparison.Comparison.CreateTable | BismNormalizer/TabularCompare/TabularMetadata/Comparison.cs:941-964 | the target and messages become those of the guarded table copy |
| TabularComparison.Comparison.UpdateTable | BismNormalizer/TabularCompare/TabularMetadata/Comparison.cs:966-989 | the target and messages become those of the guarded table copy |
| TabularComparison.Comparison.DeleteRelationship | BismNormalizer/TabularCompare/TabularMetadata/Comparison.cs:1075-1093 | the target and messages become those of the relationship delete step |
| TabularComparison.Comparison.CreateRelationship | BismNormalizer/TabularCompare/TabularMetadata/Comparison.cs:1095-1114 | the target and messages become those of the validated relationship create |
| TabularComparison.Comparison.UpdateRelationship | BismNormalizer/TabularCompare/TabularMetadata/Comparison.cs:1116-1135 | the target and messages become those of the relationship update |
| TabularComparison.Comparison.DeleteMeasure | BismNormalizer/TabularCompare/TabularMetadata/Comparison.cs:1139-1158 | the target and messages become those of the measure delete step |
| TabularComparison.Comparison.CreateMeasure | BismNormalizer/TabularCompare/TabularMetadata/Comparison.cs:1160-1184 | the target and messages become those of the measure create step, refused on a name collision |
| TabularComparison.Comparison.UpdateMeasure | BismNormalizer/TabularCompare/TabularMetadata/Comparison.cs:1186-1198 | the target and messages become those of the measure update step |
| TabularComparison.Comparison.ApplyPerspective | BismNormalizer/TabularCompare/TabularMetadata/Comparison.cs:700-723 | a perspective delete, create or update is the perspective step |
| TabularComparison.Comparison.ApplyRole | BismNormalizer/TabularCompare/TabularMetadata/Comparison.cs:732-755 | a role delete, create or update is the role step |
| TabularComparison.Comparison.ApplyCulture | BismNormalizer/TabularCompare/TabularMetadata/Comparison.cs:768-791 | a culture delete, create or update is the culture step |
| TabularComparison.Comparison.ApplyToNode | BismNormalizer/TabularCompare/TabularMetadata/Comparison.cs:584-791 | the body of one loop iteration: the helper of the phase and action, called with the node |
| TabularComparison.Comparison.ForEachNode | BismNormalizer/TabularCompare/TabularMetadata/Comparison.cs:584-596 | one loop over the forest leaves the state of applying the helper to each node in turn |
| TabularComparison.Comparison.ForEachChild | BismNormalizer/TabularCompare/TabularMetadata/Comparison.cs:638-690 | the nested loop over nodes and their children leaves the state of calling the helper once per child, with the parent |
| TabularComparison.Comparison.ForEachChildOf | BismNormalizer/TabularCompare/TabularMetadata/Comparison.cs:640-643 | the inner loop calls the helper with the parent once per child |
| TabularComparison.Comparison.ApplyCategory | BismNormalizer/TabularCompare/TabularMetadata/Comparison.cs:581-634 | a category's delete, create and update loops, in that order |
| TabularComparison.Comparison.ApplyChildCategory | BismNormalizer/TabularCompare/TabularMetadata/Comparison.cs:636-692 | the same for the nested relationship and measure loops |
| TabularComparison.Comparison.BackupAffectedObjects | BismNormalizer/TabularCompare/TabularMetadata/Comparison.cs:577 | the backup records the target's perspectives, roles and cultures |
| TabularComparison.Comparison.RestorePerspectives | BismNormalizer/TabularCompare/TabularMetadata/Comparison.cs:697 | perspectives are put back from the backup |
| TabularComparison.Comparison.RestoreRoles | BismNormalizer/TabularCompare/TabularMetadata/Comparison.cs:730 | roles are put back from the backup |
| TabularComparison.Comparison.RestoreCultures | BismNormalizer/TabularCompare/TabularMetadata/Comparison.cs:765 | cultures are put back from the backup |
| TabularComparison.Comparison.ApplyPhases | BismNormalizer/TabularCompare/TabularMetadata/Comparison.cs:568-793 | the phases run in the fixed order, leaving the state the phase order computes |
| TabularComparison.Comparison.StructuralPhases | BismNormalizer/TabularCompare/TabularMetadata/Comparison.cs:570-692 | the backup and the five structural phases are the first six steps |
| TabularComparison.Comparison.CrossCuttingPhases | BismNormalizer/TabularCompare/TabularMetadata/Comparison.cs:694-793 | perspectives, roles and cultures, each after its restore, are the last seven steps |
| TabularComparison.Comparison.RolesCleanup | BismNormalizer/TabularCompare/TabularMetadata/Comparison.cs:757 | the clean-up step leaves the state unchanged |
| TabularComparison.Comparison.ValidateSelection | BismNormalizer/TabularCompare/TabularMetadata/Comparison.cs:537-816 | a stale source wins over a stale target; either leaves the target, messages, backup and changes flag as they were; otherwise the flag is set; a node to create or update whose object the refreshed source lacks then gives SourceObjectMissing with the target and messages untouched; otherwise the target and messages are those of running every phase in order on the refreshed target; the forest, count and timestamps never change |
| TabularComparison.Comparison.ProcessAffectedTables | BismNormalizer/TabularCompare/TabularMetadata/Comparison.cs:1238-1253 | the recursion appends the affected tables at and below the node, in pre-order |
| TabularComparison.Comparison.CollectAffectedTables | BismNormalizer/TabularCompare/TabularMetadata/Comparison.cs:1218-1224 | the loop over the forest collects the affected tables of every node in forest order |
| TabularComparison.Comparison.CollectTargetTables | BismNormalizer/TabularCompare/TabularMetadata/Comparison.cs:1226-1231 | one entry per target table: each target table is listed, and none twice |
| TabularComparison.Comparison.GetTablesToProcess | BismNormalizer/TabularCompare/TabularMetadata/Comparison.cs:1212-1236 | a fresh, name-sorted collection: empty when processing is off; otherwise the affected tables or every target table |
| Processing.ProcessingTableCollection.Add | BismNormalizer/TabularCompare/TabularMetadata/Comparison.cs:1229 | adding appends one table |
| Processing.ProcessingTableCollection.Sort | BismNormalizer/TabularCompare/TabularMetadata/Comparison.cs:1234 | the collection is sorted by name and keeps the same tables |
| Processing.AffectedInMembers | BismNormalizer/TabularCompare/TabularMetadata/Comparison.cs:1238-1253 | the recursion finds a table iff some node at or below the given one is a table to create or update with that name |
| Processing.AffectedChildrenMembers | BismNormalizer/TabularCompare/TabularMetadata/Comparison.cs:1249-1252 | the loop over the first k children finds exactly what those children reach |
| Processing.AffectedOverMembers | BismNormalizer/TabularCompare/TabularMetadata/Comparison.cs:1218-1224 | over the forest, a table is collected iff some node reaches it |
| Processing.NodeReaches | BismNormalizer/TabularCompare/TabularMetadata/Comparison.cs:1238-1253 | in a well-shaped node only the node itself can be the affected table |
| Processing.AffectedWellShaped | BismNormalizer/TabularCompare/TabularMetadata/Comparison.cs:1238-1253 | for a well-shaped forest the affected tables are the top-level table nodes to create or update |
| Processing.AffectedTableNode | BismNormalizer/TabularCompare/TabularMetadata/Comparison.cs:1242-1247 | a compared table node is affected iff the source has the table and the target lacks it or defines it differently |
| Processing.NoRepeatStrict | BismNormalizer/TabularCompare/TabularMetadata/Comparison.cs:1226-1234 | a name-sorted collection with no table twice is strictly ordered |
| Processing.TargetTablesUnique | BismNormalizer/TabularCompare/TabularMetadata/Comparison.cs:1226-1234 | when every target table is processed, two collections meeting the description are equal: the result does not depend on the order the tables are visited in |
| Processing.AffectedAfterCompare | BismNormalizer/TabularCompare/TabularMetadata/Comparison.cs:1212-1253 | right after the comparison, the affected tables are exactly the source tables that the target lacks or defines differently |

## Left out

- The user interface (`ComparisonControl.cs`) that shows the forest and lets
  the user change actions is not part of this model. The user's choices appear
  only as the constraint that each action is the default or Skip.
- Calls into the tabular object model and the server are not modelled. This
  covers `Connect`, `Disconnect`, `Update`, `DatabaseDeployAndProcess`,
  `StopProcessing`, `ScriptDatabase` and `Dispose`. Connecting, refreshing and
  reconnecting in `ValidateSelection` become parameters: the refreshed source
  and target models.
- The target model's own operations are not part of this model, and the model
  assumes what each does:
  - `CreateConnection`, `CreateExpression`, `CreateTable`, `CreatePerspective`,
    `CreateCulture`, `CreateRole` and the matching `Update` operations write
    the source object into the target map under its name. For `UpdatePerspective`
    and `UpdateCulture` in merge mode, the target's selections are kept and the
    source's added (a union).
  - The `Delete` operations of connections, expressions, perspectives, cultures,
    roles, relationships and measures remove the name from the target map.
  - `DeleteTable` removes the table, the relationships whose from-table it is
    and the measures of that table. A relationship that only ends at the table
    is kept.
  - The dependency collection's `DependenciesReferenceTo` and
    `DependenciesReferenceFrom` select edges by referenced or referencing
    object; a partition edge is owned by its table's name.
- Further target-model operations whose bodies are not modelled:
  `CreateRelationshipWithValidation`, `UpdateRelationship`, `UpdateMeasure`,
  `ValidateRelationships`, `RolesCleanup`, and the backup and restore of
  perspectives, roles and cultures. Their effect is stated by the step
  functions in `Apply`. `ValidateRelationships` and `RolesCleanup` change
  nothing in the model.
- The check for missing measure dependencies at the end of `ValidateSelection`
  is not modelled. It parses DAX (`FindMissingMeasureDependencies`), which is
  not part of this model.
- `RefreshComparisonObjectsFromSkipSelections` lives in the base class, which
  is not part of this model. The forest is used as built.
- Message text is not modelled. A message keeps its category, severity,
  action, object name and the set of blocking objects. Warning-list strings
  become lists of entries.
- Internal object names (`InternalName`) are not modelled. Objects are
  identified by name.
- Relationships and measures are model-wide maps with a table field.
  Comparison.cs looks them up by scanning target tables and stopping at the first
  match; since names are unique in a model, this becomes a map lookup.
- Collections are iterated in an unspecified order, modelled by picking any
  remaining key. `ForestDeterministic` shows the forest does not depend on it,
  and `TargetTablesUnique` shows the same for the sorted list of every target
  table in `GetTablesToProcess`.
- Ordering.SortBySorted: the comparer behind `_comparisonObjects.Sort()`
  (Comparison.cs:515, 518) is `ComparisonObject.CompareTo`, which is not part of
  this model. The model assumes it orders by a fixed rank of the object type and
  then by the node's name, compared code point by code point, and that it is a
  strict total order on (type, name). So the type order, which of the source and
  target names is compared, and ordinal rather than culture-aware comparison are
  assumptions; `ForestDeterministic` and `MessagesInPhaseOrder` rely on them.
  Two further comparisons are assumed the same way: `ComparisonObjects.ContainsOther`
  stands for `ContainsOtherPerspectiveSelections` and
  `ContainsOtherCultureTranslations` (not part of this model) and is taken to be
  inclusion of selections; `ComparisonObjects.EqualDefinitions` stands for the
  comparison of `ObjectDefinition` strings and is taken to be equality of the
  modelled records.
- ApplyProperties.StructuralShape, ApplyProperties.RestoreNoOp,
  ApplyProperties.PhasesUnfold and TabularModel.DeleteTable: the assumed
  table, relationship and measure operations of the target model leave
  perspective, role and culture content unchanged. In the program, changing
  or deleting tables and measures removes their columns and measures from
  perspectives, cultures and roles (the reason Comparison.cs:572-575 gives for
  the backup), and the restore steps undo that. In the model the restore steps
  are no-ops; that they restore removed content is not captured.
- Processing.ProcessingTableCollection.Sort: the comparer of
  `ProcessingTableCollection` is not part of this model; the sort is stated as
  a permutation ordered by table name.
- Apply.PerspectiveStep and Apply.CultureStep: when the target lacks the
  perspective or culture an Update node names, Comparison.cs throws a
  NullReferenceException at line 720 or 788, because it dereferences the failed
  target lookup. The model instead writes the source object into the target.
  (For roles, line 752 passes the possibly missing target role on to the target
  model.)
- ValidateSelection: when a node to create or update names an object that the
  refreshed source lacks, Comparison.cs throws a NullReferenceException part-way
  through the phases (lines 712, 720, 744, 780, 788, 901, 948, 973). By then the
  earlier phases have already changed the target and written messages. Comparison.cs
  skips the staleness check for a project source, so an edited source project
  reaches this point. The
  model returns SourceObjectMissing before any phase runs and leaves the target
  and the messages as refreshed. It does not model the partial changes or the
  point where Comparison.cs stops. For connection create and update
  (lines 857, 866), expression update (line 920) and role update (line 752),
  Comparison.cs does not dereference the failed lookup; it passes the missing
  object to the target model, which is not part of this model. For those nodes
  the SourceObjectMissing outcome is an assumption about the target model, not
  a throw in Comparison.cs.
- Apply.DeleteRelationshipStep, Apply.CreateRelationshipStep and
  Apply.UpdateRelationshipStep: Comparison.cs
  trims relationship names (lines 1081, 1091, 1104); the model uses the names
  as they are. The child phases never fire (`ChildPhaseNoOp`), so this changes
  nothing the model states.
