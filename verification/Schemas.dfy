/** Columns, schemas and the name lookup that is rebuilt after loading. */
module Schemas {
  import opened Seqs
  import opened Values

  datatype ColumnType =
    | BigInt
    | Double
    | Varchar(limit: Option<nat>)
    | Text
    | Boolean
    | Timestamp
    | Date
    | Blob
    | Document
    | Array(element: ColumnType)
    | Vector(dimension: nat)

  datatype Column = Column(name: string, dataType: ColumnType, nullable: bool)

  datatype Schema = Schema(columns: seq<Column>, nameToIndex: map<string, nat>)

  /** Collecting (name, position) pairs into a map: a later column of the same name wins. */
  function NameIndex(columns: seq<Column>): map<string, nat> {
    if columns == [] then map[] else NameIndex(columns[..|columns| - 1])[columns[|columns| - 1].name := |columns| - 1]
  }

  function NewSchema(columns: seq<Column>): Schema {
    Schema(columns, NameIndex(columns))
  }

  function ColumnIndex(s: Schema, name: string): Option<nat> {
    if name in s.nameToIndex then Some(s.nameToIndex[name]) else None
  }

  function Rebuilt(s: Schema): Schema {
    s.(nameToIndex := NameIndex(s.columns))
  }

  /** What serialization keeps: the lookup is skipped. */
  function Serialized(s: Schema): Schema {
    s.(nameToIndex := map[])
  }

  ghost predicate Indexed(s: Schema) {
    s.nameToIndex == NameIndex(s.columns)
  }

  /** The lookup finds a name exactly when some column has it, and then the last such column. */
  lemma {:induction false} ColumnIndexIsLast(columns: seq<Column>, name: string)
    ensures name in NameIndex(columns) <==> exists i :: 0 <= i < |columns| && columns[i].name == name
    ensures name in NameIndex(columns) ==>
      var i := NameIndex(columns)[name];
      i < |columns| && columns[i].name == name && forall j :: i < j < |columns| ==> columns[j].name != name
  {
    if columns != [] {
      ColumnIndexIsLast(columns[..|columns| - 1], name);
    }
  }

  ghost predicate DistinctNames(columns: seq<Column>) {
    forall i, j :: 0 <= i < j < |columns| ==> columns[i].name != columns[j].name
  }

  /** A loaded schema answers every lookup as the saved one did. */
  lemma RebuildRestores(s: Schema)
    requires Indexed(s)
    ensures Rebuilt(Serialized(s)) == s
  {
  }
}
