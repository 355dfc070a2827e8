/** `TableSchemaCache`: an append-only list of table definitions, searched in insertion order
    for a table name that matches case-insensitively; on a miss the columns are read from the
    database's metadata catalog, and the new definition is appended and returned. */
module SchemaCache {
  import opened Wrappers
  import opened JavaStrings
  import opened TableDefinitions

  /** One row of `DatabaseMetaData.getColumns`, as the cache reads it: the column name, the
      integer type column and the size. */
  datatype CatalogColumn = CatalogColumn(columnName: string, typeCode: int, columnSize: int)

  /** An `SQLException` thrown while the metadata is read. */
  datatype SqlError = SqlError(message: string)

  /** The metadata catalog of a database: the column rows of a (schema, table) pair in
      catalog order, or the exception that reading them throws. */
  type Catalog = (string, string) -> Result<seq<CatalogColumn>, SqlError>

  type Table = TableDefinition<ColumnDefinition>

  /** A database connection; the only part the cache uses is the column metadata. The
      counter records how many metadata queries have gone to the database. */
  class Connection {
    const catalog: Catalog
    var metadataQueries: nat

    constructor(catalog: Catalog)
      ensures this.catalog == catalog && metadataQueries == 0
    {
      this.catalog := catalog;
      metadataQueries := 0;
    }

    /** `getMetaData().getColumns(null, schemaName, tableName, "%")`, read to the end. */
    method GetColumns(schemaName: string, tableName: string) returns (r: Result<seq<CatalogColumn>, SqlError>)
      modifies this
      ensures r == catalog(schemaName, tableName)
      ensures metadataQueries == old(metadataQueries) + 1
    {
      metadataQueries := metadataQueries + 1;
      r := catalog(schemaName, tableName);
    }
  }

  /** The column definition built from one metadata row. */
  function ColumnOf(row: CatalogColumn): ColumnDefinition {
    ColumnDefinition(row.columnName, row.typeCode, row.columnSize)
  }

  /** The column list built from the metadata rows: one definition per row, in order. */
  function ColumnsOf(rows: seq<CatalogColumn>): (r: seq<ColumnDefinition>)
    ensures |r| == |rows|
    ensures forall i :: 0 <= i < |rows| ==> r[i] == ColumnOf(rows[i])
  {
    if rows == [] then [] else ColumnsOf(rows[..|rows| - 1]) + [ColumnOf(rows[|rows| - 1])]
  }

  /** The `while (rs.next())` loop: each row appended to the new definition's column list. */
  method ReadColumns(rows: seq<CatalogColumn>) returns (columns: seq<ColumnDefinition>)
    ensures columns == ColumnsOf(rows)
  {
    columns := [];
    var i := 0;
    while i < |rows|
      invariant 0 <= i <= |rows|
      invariant columns == ColumnsOf(rows[..i])
    {
      assert rows[..i + 1][..i] == rows[..i];
      columns := columns + [ColumnOf(rows[i])];
      i := i + 1;
    }
    assert rows[..i] == rows;
  }

  /** The index of the first cached definition whose name matches, if any. */
  function FindFirst(defs: seq<Table>, tableName: string): (r: Option<nat>)
    ensures r.Some? ==> r.value < |defs| && IsSameName(defs[r.value], tableName)
    ensures r.Some? ==> forall j :: 0 <= j < r.value ==> !IsSameName(defs[j], tableName)
    ensures r.None? <==> forall j :: 0 <= j < |defs| ==> !IsSameName(defs[j], tableName)
  {
    if defs == [] then None
    else if IsSameName(defs[0], tableName) then Some(0)
    else
      match FindFirst(defs[1..], tableName)
      case None => None
      case Some(k) => Some(k + 1)
  }

  /** No two cached definitions have names that match each other. */
  predicate DistinctNames(defs: seq<Table>) {
    forall i, j :: 0 <= i < j < |defs| ==> !IsSameName(defs[i], defs[j].tableName)
  }

  /** The outcome of one `getTableDefinition` call: what it returns or throws, the cache
      list afterwards and how many metadata queries it makes. */
  datatype Resolution = Resolution(result: Result<Table, SqlError>, cache: seq<Table>, queries: nat)

  /** What `getTableDefinition(connection, schemaName, tableName)` does over a cache list. */
  function Resolve(catalog: Catalog, defs: seq<Table>, schemaName: string, tableName: string): Resolution {
    match FindFirst(defs, tableName)
    case Some(i) => Resolution(Ok(defs[i]), defs, 0)
    case None =>
      match catalog(schemaName, tableName)
      case Err(e) => Resolution(Err(e), defs, 1)
      case Ok(rows) =>
        var table := NewTableWithColumns(schemaName, tableName, ColumnsOf(rows));
        Resolution(Ok(table), defs + [table], 1)
  }

  /** A hit returns the first matching definition, in insertion order, leaves the list
      alone and asks the catalog nothing. */
  lemma ResolveHit(catalog: Catalog, defs: seq<Table>, schemaName: string, tableName: string, i: nat)
    requires i < |defs| && IsSameName(defs[i], tableName)
    requires forall j :: 0 <= j < i ==> !IsSameName(defs[j], tableName)
    ensures Resolve(catalog, defs, schemaName, tableName) == Resolution(Ok(defs[i]), defs, 0)
  {
    var k := FindFirst(defs, tableName);
    assert k.Some? && k.value == i;
  }

  /** A miss asks the catalog once; if the catalog answers, the new definition carries the
      given schema and table names and one column per metadata row in catalog order, is
      appended at the end and returned. */
  lemma ResolveMiss(catalog: Catalog, defs: seq<Table>, schemaName: string, tableName: string)
    requires forall j :: 0 <= j < |defs| ==> !IsSameName(defs[j], tableName)
    ensures var r := Resolve(catalog, defs, schemaName, tableName);
      r.queries == 1 &&
      match catalog(schemaName, tableName)
      case Err(e) => r.result == Err(e) && r.cache == defs
      case Ok(rows) =>
        r.result.Ok? && r.cache == defs + [r.result.value] &&
        r.result.value.schemaName == schemaName && r.result.value.tableName == tableName &&
        |r.result.value.columnDefinitions| == |rows| &&
        forall c :: 0 <= c < |rows| ==> r.result.value.columnDefinitions[c] == ColumnDefinition(rows[c].columnName, rows[c].typeCode, rows[c].columnSize)
  {
  }

  /** The list only ever grows by at most one entry at the end: earlier entries keep their
      values and their order. */
  lemma ResolveAppendOnly(catalog: Catalog, defs: seq<Table>, schemaName: string, tableName: string)
    ensures var r := Resolve(catalog, defs, schemaName, tableName);
      |defs| <= |r.cache| <= |defs| + 1 && r.cache[..|defs|] == defs
    ensures var r := Resolve(catalog, defs, schemaName, tableName);
      |r.cache| == |defs| + 1 <==> FindFirst(defs, tableName).None? && catalog(schemaName, tableName).Ok?
  {
    var r := Resolve(catalog, defs, schemaName, tableName);
    if |r.cache| == |defs| + 1 {
      assert r.cache[..|defs|] == defs;
    } else {
      assert r.cache[..|defs|] == defs;
    }
  }

  /** With sequential access, no two entries ever have matching names. */
  lemma ResolveKeepsDistinct(catalog: Catalog, defs: seq<Table>, schemaName: string, tableName: string)
    requires DistinctNames(defs)
    ensures DistinctNames(Resolve(catalog, defs, schemaName, tableName).cache)
  {
    var r := Resolve(catalog, defs, schemaName, tableName);
    if |r.cache| != |defs| {
      var cache := r.cache;
      forall i, j | 0 <= i < j < |cache| ensures !IsSameName(cache[i], cache[j].tableName) {
        if j == |defs| {
          assert cache[j].tableName == tableName;
          assert cache[i] == defs[i];
        } else {
          assert cache[i] == defs[i] && cache[j] == defs[j];
        }
      }
    }
  }

  /** Looking the same table up again, under any letter case and any schema name, returns
      the same definition, leaves the list as it is and asks the catalog nothing. So a table
      of the same name in a second schema hits the entry of the first. */
  lemma ResolveIdempotent(catalog: Catalog, defs: seq<Table>, schemaName: string, tableName: string,
                          otherSchema: string, sameName: string)
    requires AsciiLower(sameName) == AsciiLower(tableName)
    requires Resolve(catalog, defs, schemaName, tableName).result.Ok?
    ensures var first := Resolve(catalog, defs, schemaName, tableName);
      Resolve(catalog, first.cache, otherSchema, sameName) == Resolution(first.result, first.cache, 0)
  {
    var first := Resolve(catalog, defs, schemaName, tableName);
    var table := first.result.value;
    match FindFirst(defs, tableName)
    case Some(i) =>
      ResolveHit(catalog, defs, otherSchema, sameName, i);
    case None =>
      var cache := first.cache;
      assert cache == defs + [table];
      forall j | 0 <= j < |defs| ensures !IsSameName(cache[j], sameName) {
        assert cache[j] == defs[j];
      }
      ResolveHit(catalog, cache, otherSchema, sameName, |defs|);
  }

  /** `TableSchemaCache`, constructed explicitly. */
  class TableSchemaCache {
    /** The cached definitions, in the order they were first loaded. */
    var tableDefinitions: seq<Table>

    /** What sequential use keeps true of the list. */
    predicate Valid()
      reads this
    {
      DistinctNames(tableDefinitions)
    }

    /** A new cache has no definitions. */
    constructor()
      ensures tableDefinitions == [] && Valid()
    {
      tableDefinitions := [];
    }

    /** `getTableDefinition`: scan the list in order and return the first definition whose
        name matches; otherwise read the columns of the table through the connection,
        append the new definition and return it. An `SQLException` leaves the list as it was. */
    method GetTableDefinition(connection: Connection, schemaName: string, tableName: string)
      returns (r: Result<Table, SqlError>)
      modifies this, connection
      ensures var res := Resolve(connection.catalog, old(tableDefinitions), schemaName, tableName);
        r == res.result && tableDefinitions == res.cache &&
        connection.metadataQueries == old(connection.metadataQueries) + res.queries
      ensures old(Valid()) ==> Valid()
    {
      if Valid() {
        ResolveKeepsDistinct(connection.catalog, tableDefinitions, schemaName, tableName);
      }
      var i := 0;
      while i < |tableDefinitions|
        invariant 0 <= i <= |tableDefinitions|
        invariant forall j :: 0 <= j < i ==> !IsSameName(tableDefinitions[j], tableName)
      {
        if IsSameName(tableDefinitions[i], tableName) {
          ResolveHit(connection.catalog, tableDefinitions, schemaName, tableName, i);
          return Ok(tableDefinitions[i]);
        }
        i := i + 1;
      }
      var rows := connection.GetColumns(schemaName, tableName);
      if rows.Err? {
        return Err(rows.error);
      }
      var columns := ReadColumns(rows.value);
      var table := NewTableWithColumns(schemaName, tableName, columns);
      tableDefinitions := tableDefinitions + [table];
      return Ok(table);
    }
  }
}
