/** The tables to process after an update: the ProcessingTable records, the
    collection they are gathered in, and which tables a comparison forest
    marks as affected. */
module Processing {
  import opened Ordering
  import opened ComparisonObjects
  import TM = TabularModel
  import opened Differ

  /** A table to process, by name. */
  datatype ProcessingTable = ProcessingTable(name: Name)

  /** The collection is ordered by table name. */
  function TableKey(t: ProcessingTable): SortKey {
    SortKey(0, t.name)
  }

  /** ProcessingTableCollection: a list of tables that is added to and sorted in place. */
  class ProcessingTableCollection {
    var items: seq<ProcessingTable>

    constructor()
      ensures items == []
    {
      items := [];
    }

    method Add(t: ProcessingTable)
      modifies this
      ensures items == old(items) + [t]
    {
      items := items + [t];
    }

    /** Sorts the list: the result is ordered and holds the same tables. */
    method Sort()
      modifies this
      ensures Sorted(items, TableKey)
      ensures multiset(items) == multiset(old(items))
    {
      SortBySorted(items, TableKey);
      items := SortBy(items, TableKey);
    }
  }

  /** The guard of ProcessAffectedTables: a table node to be created or updated. */
  predicate Affected(c: ComparisonObject) {
    c.objectType == Table && (c.mergeAction == Create || c.mergeAction == Update)
  }

  /** What ProcessAffectedTables adds for node c: c itself when it is affected,
      then what each of its children adds, in order. */
  function AffectedIn(c: ComparisonObject): seq<ProcessingTable>
    decreases c, 1
  {
    (if Affected(c) then [ProcessingTable(c.name)] else []) + AffectedChildren(c, |c.children|)
  }

  /** What the first k children of c add. */
  function AffectedChildren(c: ComparisonObject, k: nat): seq<ProcessingTable>
    requires k <= |c.children|
    decreases c, 0, k
  {
    if k == 0 then [] else AffectedChildren(c, k - 1) + AffectedIn(c.children[k - 1])
  }

  /** What the calls for every node of the forest add, in forest order. */
  function AffectedOver(forest: seq<ComparisonObject>): seq<ProcessingTable>
    decreases |forest|
  {
    if forest == [] then []
    else AffectedOver(forest[..|forest| - 1]) + AffectedIn(forest[|forest| - 1])
  }

  /** Node c, or a node below it at any depth, is an affected table named n. */
  ghost predicate Reaches(c: ComparisonObject, n: Name)
    decreases c
  {
    (Affected(c) && c.name == n) || exists j :: 0 <= j < |c.children| && Reaches(c.children[j], n)
  }

  /** The recursion finds every affected table at any depth below c, and nothing else. */
  lemma {:induction false} AffectedInMembers(c: ComparisonObject, n: Name)
    ensures ProcessingTable(n) in AffectedIn(c) <==> Reaches(c, n)
    decreases c, 1
  {
    AffectedChildrenMembers(c, |c.children|, n);
  }

  lemma {:induction false} AffectedChildrenMembers(c: ComparisonObject, k: nat, n: Name)
    requires k <= |c.children|
    ensures ProcessingTable(n) in AffectedChildren(c, k) <==>
      exists j :: 0 <= j < k && Reaches(c.children[j], n)
    decreases c, 0, k
  {
    if k > 0 {
      AffectedChildrenMembers(c, k - 1, n);
      AffectedInMembers(c.children[k - 1], n);
    }
  }

  /** Over the forest: a table is collected iff some node reaches it. */
  lemma {:induction false} AffectedOverMembers(forest: seq<ComparisonObject>, n: Name)
    ensures ProcessingTable(n) in AffectedOver(forest) <==>
      exists i :: 0 <= i < |forest| && Reaches(forest[i], n)
    decreases |forest|
  {
    if forest != [] {
      var init := forest[..|forest| - 1];
      AffectedOverMembers(init, n);
      AffectedInMembers(forest[|forest| - 1], n);
      if exists i :: 0 <= i < |forest| && Reaches(forest[i], n) {
        var i :| 0 <= i < |forest| && Reaches(forest[i], n);
        if i < |init| {
          assert init[i] == forest[i];
        }
      }
      if exists i :: 0 <= i < |init| && Reaches(init[i], n) {
        var i :| 0 <= i < |init| && Reaches(init[i], n);
        assert forest[i] == init[i];
      }
    }
  }

  /** In a well-shaped node only the node itself can be an affected table:
      its children are relationships and measures with no children. */
  lemma NodeReaches(x: ComparisonObject, n: Name)
    requires NodeShaped(x)
    ensures Reaches(x, n) <==> Affected(x) && x.name == n
  {
    forall j | 0 <= j < |x.children| ensures !Reaches(x.children[j], n) {
      assert ChildShaped(x.children[j]);
    }
  }

  /** For a well-shaped forest the affected tables are exactly the top-level
      table nodes whose action is Create or Update. */
  lemma AffectedWellShaped(forest: seq<ComparisonObject>, n: Name)
    requires WellShaped(forest)
    ensures ProcessingTable(n) in AffectedOver(forest) <==>
      exists i :: 0 <= i < |forest| && Affected(forest[i]) && forest[i].name == n
  {
    AffectedOverMembers(forest, n);
    forall i | 0 <= i < |forest| ensures Reaches(forest[i], n) <==> Affected(forest[i]) && forest[i].name == n {
      NodeReaches(forest[i], n);
    }
  }

  /** A table node the differ emits is affected iff the target lacks the
      table or defines it differently. */
  lemma AffectedTableNode(x: ComparisonObject, src: TM.Model, tgt: TM.Model, opt: OptionsInfo)
    requires TopRight(x, src, tgt, opt) && x.objectType == Table
    ensures Affected(x) <==>
      x.name in src.tables && (x.name !in tgt.tables || src.tables[x.name] != tgt.tables[x.name])
  {
    assert TableRight(x, src, tgt);
    ClassifyRule(Table, x.name, src.tables, tgt.tables, EqualDefinitions);
  }

  lemma RankOfTable(t: ComparisonObjectType)
    requires TypeRank(t) == TypeRank(Table)
    ensures t == Table
  {
  }

  /** Right after the comparison, the affected tables are the source tables
      that the target lacks or defines differently. */
  lemma AffectedAfterCompare(f: seq<ComparisonObject>, src: TM.Model, tgt: TM.Model, opt: OptionsInfo, n: Name)
    requires ForestSpec(f, src, tgt, opt)
    ensures ProcessingTable(n) in AffectedOver(f) <==>
      n in src.tables && (n !in tgt.tables || src.tables[n] != tgt.tables[n])
  {
    ForestWellShaped(f, src, tgt, opt);
    AffectedWellShaped(f, n);
    if exists i :: 0 <= i < |f| && Affected(f[i]) && f[i].name == n {
      var i :| 0 <= i < |f| && Affected(f[i]) && f[i].name == n;
      AffectedTableNode(f[i], src, tgt, opt);
    }
    if n in src.tables && (n !in tgt.tables || src.tables[n] != tgt.tables[n]) {
      assert InScope(Table, n, src, tgt, opt);
      var i :| 0 <= i < |f| && Key(f[i]) == SortKey(TypeRank(Table), n);
      RankOfTable(f[i].objectType);
      AffectedTableNode(f[i], src, tgt, opt);
    }
  }

  /** The collection GetTablesToProcess returns: always sorted; empty with
      DoNotProcess; otherwise the tables the forest affects when only affected
      tables are processed, and every target table when all are. */
  ghost predicate TablesToProcess(items: seq<ProcessingTable>, opt: OptionsInfo,
                                  forest: seq<ComparisonObject>, target: TM.Model) {
    && Sorted(items, TableKey)
    && (opt.optionProcessingOption == DoNotProcess ==> items == [])
    && (opt.optionProcessingOption != DoNotProcess && opt.optionAffectedTables ==>
          multiset(items) == multiset(AffectedOver(forest)))
    && (opt.optionProcessingOption != DoNotProcess && !opt.optionAffectedTables ==>
          && |items| == |target.tables|
          && (forall t :: t in items <==> t.name in target.tables)
          && (forall t :: multiset(items)[t] <= 1))
  }

  /** A sorted list with no table twice is strictly sorted. */
  lemma NoRepeatStrict(s: seq<ProcessingTable>)
    requires Sorted(s, TableKey) && forall t :: multiset(s)[t] <= 1
    ensures StrictlySorted(s, TableKey)
  {
    forall i, j | 0 <= i < j < |s| ensures KeyLt(TableKey(s[i]), TableKey(s[j])) {
      TwiceCounted(s, i, j);
    }
  }

  /** A table found at two positions is counted at least twice. */
  lemma TwiceCounted(s: seq<ProcessingTable>, i: int, j: int)
    requires 0 <= i < j < |s|
    ensures s[i] == s[j] ==> multiset(s)[s[i]] >= 2
  {
    assert s == s[..j] + s[j..];
    assert s[..j][i] == s[i];
    assert s[j..][0] == s[j];
    assert multiset(s)[s[i]] == multiset(s[..j])[s[i]] + multiset(s[j..])[s[i]];
  }

  /** When every target table is processed, the sorted collection is determined
      by the target alone, whatever order its tables were visited in. */
  lemma TargetTablesUnique(a: seq<ProcessingTable>, b: seq<ProcessingTable>, opt: OptionsInfo,
                           forest: seq<ComparisonObject>, target: TM.Model)
    requires TablesToProcess(a, opt, forest, target) && TablesToProcess(b, opt, forest, target)
    requires opt.optionProcessingOption != DoNotProcess && !opt.optionAffectedTables
    ensures a == b
  {
    NoRepeatStrict(a);
    NoRepeatStrict(b);
    StrictlySortedUnique(a, b, TableKey);
  }
}
