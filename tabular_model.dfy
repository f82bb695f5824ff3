/** The two tabular models being compared, as values: one map from name to
    object per category, the M dependency edges, the last-schema-update
    timestamp and whether the model is a live project. */
module TabularModel {

  type Name = string

  /** The serialized definition of an object; compared as a whole. */
  type Definition = string

  /** The selections of a perspective or the translations of a culture. */
  type Selections = set<string>

  datatype PartitionSourceType = Query | M | Calculated | Other

  datatype Partition = Partition(name: Name, sourceType: PartitionSourceType)

  /** A table; `connectionName` is the data source of its legacy query partitions. */
  datatype Table = Table(definition: Definition, connectionName: Name, partitions: seq<Partition>)

  /** Relationship names are unique in a model; each belongs to the table it starts
      from and refers to the table it ends at. */
  datatype Relationship = Relationship(fromTable: Name, toTable: Name, definition: Definition)

  /** Measure names are unique in a model; a KPI is a measure with the flag set. */
  datatype Measure = Measure(tableName: Name, definition: Definition, isKpi: bool)

  datatype MDependencyObjectType = ConnectionObject | ExpressionObject | PartitionObject

  /** An M dependency edge: object (objectType, tableName, objectName) references
      (referencedObjectType, referencedObjectName). `tableName` is the owning table
      of a partition. */
  datatype MDependency = MDependency(
    objectType: MDependencyObjectType,
    tableName: Name,
    objectName: Name,
    referencedObjectType: MDependencyObjectType,
    referencedObjectName: Name)

  datatype Model = Model(
    connections: map<Name, Definition>,
    tables: map<Name, Table>,
    relationships: map<Name, Relationship>,
    measures: map<Name, Measure>,
    expressions: map<Name, Definition>,
    perspectives: map<Name, Selections>,
    cultures: map<Name, Selections>,
    roles: map<Name, Definition>,
    dependencies: seq<MDependency>,
    lastSchemaUpdate: nat,
    useProject: bool)

  /** The relationships of table t, by name. */
  function RelationshipsOf(m: Model, t: Name): (r: map<Name, Relationship>)
    ensures forall n :: n in r <==> n in m.relationships && m.relationships[n].fromTable == t
  {
    map n | n in m.relationships && m.relationships[n].fromTable == t :: m.relationships[n]
  }

  /** The measures and KPIs of table t, by name. */
  function MeasuresOf(m: Model, t: Name): (r: map<Name, Measure>)
    ensures forall n :: n in r <==> n in m.measures && m.measures[n].tableName == t
  {
    map n | n in m.measures && m.measures[n].tableName == t :: m.measures[n]
  }

  /** The children of table t on one side: empty when the side has no table t. */
  function SideRelationships(m: Model, t: Name): map<Name, Relationship> {
    if t in m.tables then RelationshipsOf(m, t) else map[]
  }

  function SideMeasures(m: Model, t: Name): map<Name, Measure> {
    if t in m.tables then MeasuresOf(m, t) else map[]
  }

  /** The dependencies whose referenced object is (ty, name), in collection order. */
  function DependenciesReferenceTo(deps: seq<MDependency>, ty: MDependencyObjectType, name: Name): (r: seq<MDependency>)
    ensures forall d :: d in r <==> d in deps && d.referencedObjectType == ty && d.referencedObjectName == name
  {
    if deps == [] then []
    else
      var rest := DependenciesReferenceTo(deps[..|deps| - 1], ty, name);
      var d := deps[|deps| - 1];
      assert deps == deps[..|deps| - 1] + [d];
      if d.referencedObjectType == ty && d.referencedObjectName == name then rest + [d] else rest
  }

  /** The name an edge's referencing object is looked up by: the owning table of a
      partition, the object's own name otherwise. */
  function OwnerName(d: MDependency): Name {
    if d.objectType == PartitionObject then d.tableName else d.objectName
  }

  /** The dependencies whose referencing object is (ty, name), in collection order. */
  function DependenciesReferenceFrom(deps: seq<MDependency>, ty: MDependencyObjectType, name: Name): (r: seq<MDependency>)
    ensures forall d :: d in r <==> d in deps && d.objectType == ty && OwnerName(d) == name
  {
    if deps == [] then []
    else
      var rest := DependenciesReferenceFrom(deps[..|deps| - 1], ty, name);
      var d := deps[|deps| - 1];
      assert deps == deps[..|deps| - 1] + [d];
      if d.objectType == ty && OwnerName(d) == name then rest + [d] else rest
  }

  /** Whether some table of m has a legacy query partition and uses connection c. */
  ghost predicate QueryPartitionUses(m: Model, c: Name) {
    exists t, i :: t in m.tables && 0 <= i < |m.tables[t].partitions| &&
      m.tables[t].partitions[i].sourceType == Query && m.tables[t].connectionName == c
  }

  /** Deleting a table takes its relationships and measures with it. */
  function DeleteTable(m: Model, t: Name): (r: Model)
    ensures r.tables == m.tables - {t}
    ensures forall n :: n in r.relationships <==> n in m.relationships && m.relationships[n].fromTable != t
    ensures forall n :: n in r.measures <==> n in m.measures && m.measures[n].tableName != t
    ensures r == m.(tables := r.tables, relationships := r.relationships, measures := r.measures)
  {
    m.(tables := m.tables - {t},
       relationships := map n | n in m.relationships && m.relationships[n].fromTable != t :: m.relationships[n],
       measures := map n | n in m.measures && m.measures[n].tableName != t :: m.measures[n])
  }
}
