/** The table and column descriptions the schema cache stores. The repository carries two
    snapshots of `TableDefinition` (one in the `database` package, one in `database.schema`)
    with the same fields, the same constructors and the same `isSameName`. They differ in the
    column record, and only the `database` one has the getters `getTableName` and
    `getSchemaName`; one datatype, generic in the column type, serves both. */
module TableDefinitions {
  import opened JavaStrings

  /** `database.ColumnDefinition`: name, type code and size. */
  datatype ColumnDefinition = ColumnDefinition(columnName: string, columnType: int, columnSize: int)

  /** `database.schema.ColumnDefinition`: name, declared type name, type code and size. No
      operation of the model builds one; it documents the column type of the `schema`
      snapshot, `TableDefinition<SchemaColumnDefinition>`, which the generic members cover. */
  datatype SchemaColumnDefinition =
    SchemaColumnDefinition(columnName: string, columnType: string, dataType: int, columnSize: int)

  /** `TableDefinition`: schema name, table name and the ordered column list. The fields are
      final in both snapshots. */
  datatype TableDefinition<C> = TableDefinition(schemaName: string, tableName: string, columnDefinitions: seq<C>)

  /** The two-argument constructor: no columns yet. */
  function NewTable<C>(schemaName: string, tableName: string): (t: TableDefinition<C>)
    ensures t.schemaName == schemaName && t.tableName == tableName
    ensures |t.columnDefinitions| == 0
  {
    NewTableWithColumns(schemaName, tableName, [])
  }

  /** The three-argument constructor: every argument stored as given. */
  function NewTableWithColumns<C>(schemaName: string, tableName: string, columns: seq<C>): (t: TableDefinition<C>)
    ensures t.schemaName == schemaName && t.tableName == tableName && t.columnDefinitions == columns
  {
    TableDefinition(schemaName, tableName, columns)
  }

  /** `getTableName` (only the `database` snapshot has the getters). */
  function GetTableName<C>(t: TableDefinition<C>): string {
    t.tableName
  }

  /** `getSchemaName`. */
  function GetSchemaName<C>(t: TableDefinition<C>): string {
    t.schemaName
  }

  /** `isSameName`: the stored table name and the argument agree once both are lower-cased. */
  predicate IsSameName<C>(t: TableDefinition<C>, tableName: string) {
    AsciiLower(t.tableName) == AsciiLower(tableName)
  }

  /** The getters give back what either constructor was handed. */
  lemma GettersReturnArguments<C>(schemaName: string, tableName: string, columns: seq<C>)
    ensures GetTableName(NewTableWithColumns(schemaName, tableName, columns)) == tableName
    ensures GetSchemaName(NewTableWithColumns(schemaName, tableName, columns)) == schemaName
    ensures GetTableName(NewTable<C>(schemaName, tableName)) == tableName
    ensures GetSchemaName(NewTable<C>(schemaName, tableName)) == schemaName
  {
  }

  /** `isSameName` compares character by character, ignoring the case of ASCII letters:
      the names have the same length and agree at every index after lower-casing. */
  lemma IsSameNameCharwise<C>(t: TableDefinition<C>, tableName: string)
    ensures IsSameName(t, tableName) <==>
      |t.tableName| == |tableName| &&
      forall i :: 0 <= i < |tableName| ==> LowerChar(t.tableName[i]) == LowerChar(tableName[i])
  {
    var a := AsciiLower(t.tableName);
    var b := AsciiLower(tableName);
    if |t.tableName| == |tableName| && forall i :: 0 <= i < |tableName| ==> LowerChar(t.tableName[i]) == LowerChar(tableName[i]) {
      assert forall i :: 0 <= i < |a| ==> a[i] == b[i];
    }
  }

  /** A table matches its own name, ... */
  lemma IsSameNameReflexive<C>(t: TableDefinition<C>)
    ensures IsSameName(t, t.tableName)
  {
  }

  /** ... the argument's letter case does not matter, ... */
  lemma {:induction false} IsSameNameIgnoresCase<C>(t: TableDefinition<C>, tableName: string)
    ensures IsSameName(t, AsciiLower(tableName)) <==> IsSameName(t, tableName)
  {
    AsciiLowerIdempotent(tableName);
  }

  /** ... names matching one name match each other, ... */
  lemma IsSameNameTransfer<C>(t: TableDefinition<C>, u: TableDefinition<C>, tableName: string)
    requires IsSameName(t, tableName) && IsSameName(u, tableName)
    ensures IsSameName(t, u.tableName) && IsSameName(u, t.tableName)
  {
  }

  /** ... and neither the schema name nor the columns take part. */
  lemma IsSameNameIgnoresSchemaAndColumns<C>(t: TableDefinition<C>, schemaName: string, columns: seq<C>, tableName: string)
    ensures IsSameName(NewTableWithColumns(schemaName, t.tableName, columns), tableName) <==> IsSameName(t, tableName)
  {
  }
}
