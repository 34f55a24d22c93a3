/** Per-table metadata regenerated after staging (`insert_metadata`) and
    the column maps the filter compiler loads from it
    (`load_column_info`). */
module Metadata {
  import opened Results
  import opened Seqs
  import opened Frames
  import opened Schemas
  import opened Settings
  import opened Store

  datatype MetaError = NoProdTable | EmptySlice | NoSchema | NotInSchema(column: string)

  /** Columns that never get a metadata row: the bookkeeping columns and
      the two identifier columns the melt keeps aside. */
  const META_EXCLUDED: set<string> := {"ingest_id", "ingest_ts", "data_collection", "table_name"}

  /** The rows of `table_name` in the production table. */
  function Slice(prod: Frame, tableName: string): (r: seq<Row>)
    ensures forall i :: 0 <= i < |r| ==> r[i] in prod.rows && Get(r[i], "table_name") == Text(tableName)
    ensures forall i :: 0 <= i < |prod.rows| && Get(prod.rows[i], "table_name") == Text(tableName) ==> prod.rows[i] in r
  {
    Filter(prod.rows, (d: Row) => Get(d, "table_name") == Text(tableName))
  }

  /** The columns described, in frame order. */
  function MetaColumns(columns: seq<string>, slice: seq<Row>): seq<string>
  {
    Filter(columns, c => c !in META_EXCLUDED && HasNonNull(ColumnOf(slice, c)))
  }

  function Describe(collection: string, tableName: string, slice: seq<Row>, c: string, sqlType: string): MetaRow
  {
    var vs := ColumnOf(slice, c);
    MetaRow(collection, tableName, c, NonNullCount(vs), |NonNullValues(vs)|, sqlType)
  }

  /** One metadata row per column, typed from the schema; a column the
      schema lacks is a `KeyError`, raised only if there is a column to
      describe. */
  function DescribeAll(collection: string, tableName: string, slice: seq<Row>, cols: seq<string>,
                       schema: Option<Schema>): (r: Result<seq<MetaRow>, MetaError>)
    ensures r.Ok? <==> |cols| == 0 || (schema.Some? && forall k :: 0 <= k < |cols| ==> Lookup(schema.value, cols[k]).Some?)
    ensures r == Err(NoSchema) <==> |cols| > 0 && schema.None?
    ensures r.Err? ==> r.error == NoSchema || r.error.NotInSchema?
    ensures r.Ok? ==>
              |r.value| == |cols| &&
              forall k :: 0 <= k < |cols| ==>
                r.value[k] == Describe(collection, tableName, slice, cols[k], Lookup(schema.value, cols[k]).value.sqlType)
  {
    if |cols| == 0 then Ok([])
    else if schema.None? then Err(NoSchema)
    else match Lookup(schema.value, cols[0])
      case None => Err(NotInSchema(cols[0]))
      case Some(spec) =>
        assert forall k :: 1 <= k < |cols| ==> cols[k] == cols[1..][k - 1];
        match DescribeAll(collection, tableName, slice, cols[1..], schema)
        case Err(e) => Err(e)
        case Ok(rest) => Ok([Describe(collection, tableName, slice, cols[0], spec.sqlType)] + rest)
  }

  predicate IsTable(m: MetaRow, collection: string, tableName: string)
  {
    m.collection == collection && m.tableName == tableName
  }

  /** The metadata rows of one table, in table order. */
  function Matching(metadata: seq<MetaRow>, collection: string, tableName: string): (r: seq<MetaRow>)
    ensures forall i :: 0 <= i < |r| ==> r[i] in metadata && IsTable(r[i], collection, tableName)
    ensures forall i :: 0 <= i < |metadata| && IsTable(metadata[i], collection, tableName) ==> metadata[i] in r
  {
    Filter(metadata, m => IsTable(m, collection, tableName))
  }

  /** The metadata rows of every other table. */
  function Others(metadata: seq<MetaRow>, collection: string, tableName: string): (r: seq<MetaRow>)
    ensures forall i :: 0 <= i < |r| ==> r[i] in metadata && !IsTable(r[i], collection, tableName)
    ensures forall i :: 0 <= i < |metadata| && !IsTable(metadata[i], collection, tableName) ==> metadata[i] in r
  {
    Filter(metadata, m => !IsTable(m, collection, tableName))
  }

  /** `rows` holds one row per column of `cols`, in order, each describing
      that column of the slice with the type the schema declares. */
  predicate Describes(rows: seq<MetaRow>, collection: string, tableName: string, slice: seq<Row>,
                      cols: seq<string>, schemas: SchemaDict)
  {
    && |rows| == |cols|
    && (|cols| > 0 ==> collection in schemas)
    && forall k :: 0 <= k < |cols| ==>
         && collection in schemas
         && Lookup(schemas[collection], cols[k]).Some?
         && rows[k] == Describe(collection, tableName, slice, cols[k], Lookup(schemas[collection], cols[k]).value.sqlType)
  }

  /** The schema of `collection` declares every column of `cols`. */
  predicate SchemaCovers(schemas: SchemaDict, collection: string, cols: seq<string>)
  {
    forall k :: 0 <= k < |cols| ==> collection in schemas && Lookup(schemas[collection], cols[k]).Some?
  }

  /** `insert_metadata(data_collection, table_name, schema_dict)`: describes
      the table's slice of the production table and replaces that table's
      metadata rows, and only those. */
  function InsertMetadata(db: Db, collection: string, tableName: string, schemas: SchemaDict)
    : (r: Result<(Db, seq<MetaRow>), MetaError>)
    ensures r.Err? && r.error == NoProdTable <==> ProdTable(collection) !in db.tables
    ensures ProdTable(collection) in db.tables && |Slice(db.tables[ProdTable(collection)], tableName)| == 0 ==>
              r == Err(EmptySlice)
    ensures r.Ok? <==>
              && ProdTable(collection) in db.tables
              && |Slice(db.tables[ProdTable(collection)], tableName)| > 0
              && SchemaCovers(schemas, collection,
                   MetaColumns(db.tables[ProdTable(collection)].columns, Slice(db.tables[ProdTable(collection)], tableName)))
    ensures r.Ok? ==>
              && ProdTable(collection) in db.tables
              && |Slice(db.tables[ProdTable(collection)], tableName)| > 0
              && Describes(r.value.1, collection, tableName, Slice(db.tables[ProdTable(collection)], tableName),
                           MetaColumns(db.tables[ProdTable(collection)].columns, Slice(db.tables[ProdTable(collection)], tableName)),
                           schemas)
              && r.value.0 == db.(metadata := Others(db.metadata, collection, tableName) + r.value.1)
  {
    if ProdTable(collection) !in db.tables then Err(NoProdTable)
    else
      var prod := db.tables[ProdTable(collection)];
      var slice := Slice(prod, tableName);
      if |slice| == 0 then Err(EmptySlice)
      else
        var cols := MetaColumns(prod.columns, slice);
        var schema := if collection in schemas then Some(schemas[collection]) else None;
        match DescribeAll(collection, tableName, slice, cols, schema)
        case Err(e) =>
          assert !SchemaCovers(schemas, collection, cols) by {
            if collection !in schemas {
              assert |cols| > 0 && cols[0] == cols[0];
            }
          }
          Err(e)
        case Ok(rows) =>
          assert Describes(rows, collection, tableName, slice, cols, schemas);
          Ok((db.(metadata := Others(db.metadata, collection, tableName) + rows), rows))
  }

  datatype ColumnInfo = ColumnInfo(sqlTypes: map<string, string>, casts: map<string, PyType>)

  datatype LoadError = NoMetadata | UnknownDtype

  /** `{r["column_name"]: r["dtype"] for r in meta}`: a later row for the
      same column overrides an earlier one. */
  function TypesOf(ms: seq<MetaRow>): (r: map<string, string>)
    ensures forall c :: c in r <==> exists i :: 0 <= i < |ms| && ms[i].columnName == c
  {
    if |ms| == 0 then map[]
    else
      var n := |ms| - 1;
      var rest := TypesOf(ms[..n]);
      assert forall i :: 0 <= i < n ==> ms[..n][i] == ms[i];
      var r := rest[ms[n].columnName := ms[n].dtype];
      forall c
        ensures c in r <==> exists i :: 0 <= i < |ms| && ms[i].columnName == c
      {
        if c != ms[n].columnName && exists i :: 0 <= i < |ms| && ms[i].columnName == c {
          var i :| 0 <= i < |ms| && ms[i].columnName == c;
          assert ms[..n][i].columnName == c;
        }
      }
      r
  }

  /** No row after index `i` names the same column. */
  predicate LastFor(ms: seq<MetaRow>, i: int)
    requires 0 <= i < |ms|
  {
    forall j :: i < j < |ms| ==> ms[j].columnName != ms[i].columnName
  }

  /** The last row for a column decides its type. */
  lemma {:induction false} TypesOfLastWins(ms: seq<MetaRow>, i: int)
    requires 0 <= i < |ms| && LastFor(ms, i)
    ensures ms[i].columnName in TypesOf(ms) && TypesOf(ms)[ms[i].columnName] == ms[i].dtype
  {
    var n := |ms| - 1;
    if i < n {
      assert ms[..n][i] == ms[i];
      assert LastFor(ms[..n], i) by {
        assert forall j :: i < j < n ==> ms[..n][j] == ms[j];
      }
      TypesOfLastWins(ms[..n], i);
      assert ms[n].columnName != ms[i].columnName;
    }
  }

  /** When every row for a column agrees on its type, that is the type
      the map holds, whichever row came last. */
  lemma {:induction false} TypesOfConsistent(ms: seq<MetaRow>)
    requires forall i, j :: 0 <= i < |ms| && 0 <= j < |ms| && ms[i].columnName == ms[j].columnName ==>
               ms[i].dtype == ms[j].dtype
    ensures forall k :: 0 <= k < |ms| ==> TypesOf(ms)[ms[k].columnName] == ms[k].dtype
  {
    if |ms| > 0 {
      var n := |ms| - 1;
      assert forall i :: 0 <= i < n ==> ms[..n][i] == ms[i];
      TypesOfConsistent(ms[..n]);
    }
  }

  /** `load_column_info(data_collection, table_name)`: the column to SQL
      type map and the column to cast map, over the same columns. */
  function LoadColumnInfo(metadata: seq<MetaRow>, collection: string, tableName: string)
    : (r: Result<ColumnInfo, LoadError>)
    ensures r == Err(NoMetadata) <==> forall i :: 0 <= i < |metadata| ==> !IsTable(metadata[i], collection, tableName)
    ensures r.Ok? <==>
              |Matching(metadata, collection, tableName)| > 0 &&
              forall c :: c in TypesOf(Matching(metadata, collection, tableName)) ==>
                TypesOf(Matching(metadata, collection, tableName))[c] in DTYPES
    ensures r.Ok? ==> r.value.sqlTypes == TypesOf(Matching(metadata, collection, tableName))
    ensures r.Ok? ==>
              && r.value.sqlTypes.Keys == r.value.casts.Keys
              && (forall c :: c in r.value.sqlTypes <==>
                    exists i :: 0 <= i < |metadata| && IsTable(metadata[i], collection, tableName) && metadata[i].columnName == c)
              && forall c :: c in r.value.casts ==> r.value.sqlTypes[c] in DTYPES && r.value.casts[c] == DTYPES[r.value.sqlTypes[c]]
  {
    var meta := Matching(metadata, collection, tableName);
    if |meta| == 0 then
      Err(NoMetadata)
    else
      assert meta[0] in metadata;
      var types := TypesOf(meta);
      if exists c :: c in types && types[c] !in DTYPES then
        var c :| c in types && types[c] !in DTYPES;
        assert !(TypesOf(Matching(metadata, collection, tableName))[c] in DTYPES);
        Err(UnknownDtype)
      else
        assert forall c :: c in types <==>
                 exists i :: 0 <= i < |metadata| && IsTable(metadata[i], collection, tableName) && metadata[i].columnName == c by {
          forall c
            ensures c in types <==>
                    exists i :: 0 <= i < |metadata| && IsTable(metadata[i], collection, tableName) && metadata[i].columnName == c
          {
            if exists i :: 0 <= i < |metadata| && IsTable(metadata[i], collection, tableName) && metadata[i].columnName == c {
              var i :| 0 <= i < |metadata| && IsTable(metadata[i], collection, tableName) && metadata[i].columnName == c;
              assert metadata[i] in meta;
            }
            if c in types {
              var k :| 0 <= k < |meta| && meta[k].columnName == c;
              assert meta[k] in metadata;
            }
          }
        }
        Ok(ColumnInfo(types, map c | c in types :: DTYPES[types[c]]))
  }
}

module MetadataFacts {
  import opened Results
  import opened Seqs
  import opened SeqsFacts
  import opened Frames
  import opened Schemas
  import opened Settings
  import opened Store
  import opened Metadata

  /** Every metadata row is about a column that is really there: it has
      at least one distinct value, no more distinct values than non-null
      cells, and no more non-null cells than rows in the slice. */
  lemma MetadataBounds(db: Db, collection: string, tableName: string, schemas: SchemaDict, k: int)
    requires InsertMetadata(db, collection, tableName, schemas).Ok?
    requires 0 <= k < |InsertMetadata(db, collection, tableName, schemas).value.1|
    ensures var m := InsertMetadata(db, collection, tableName, schemas).value.1[k];
            && m.collection == collection && m.tableName == tableName
            && m.columnName !in META_EXCLUDED
            && 1 <= m.nUnique <= m.nNonNulls <= |Slice(db.tables[ProdTable(collection)], tableName)|
            && m.columnName in db.tables[ProdTable(collection)].columns
  {
    var prod := db.tables[ProdTable(collection)];
    var slice := Slice(prod, tableName);
    var cols := MetaColumns(prod.columns, slice);
    var c := cols[k];
    assert c in cols;
    var vs := ColumnOf(slice, c);
    NonNullCountBounds(vs);
    UniqueWithinNonNull(vs);
  }

  /** Regenerating one table's metadata leaves every other table's rows
      exactly as they were, in the same order. */
  lemma {:induction false} InsertMetadataScoped(db: Db, collection: string, tableName: string, schemas: SchemaDict)
    requires InsertMetadata(db, collection, tableName, schemas).Ok?
    ensures var after := InsertMetadata(db, collection, tableName, schemas).value.0;
            && Others(after.metadata, collection, tableName) == Others(db.metadata, collection, tableName)
            && after.log == db.log && after.nextId == db.nextId && after.tables == db.tables
  {
    var r := InsertMetadata(db, collection, tableName, schemas).value;
    var others := Others(db.metadata, collection, tableName);
    var p := (m: MetaRow) => !IsTable(m, collection, tableName);
    FilterAppend(others, r.1, p);
    FilterKeepsAll(others, p);
    FilterKeepsNone(r.1, p);
    assert Filter(others + r.1, p) == others + [];
  }

  /** The metadata rows of the table after the insert are exactly the
      rows the insert produced. */
  lemma {:induction false} InsertedRowsMatch(db: Db, collection: string, tableName: string, schemas: SchemaDict)
    requires InsertMetadata(db, collection, tableName, schemas).Ok?
    ensures var r := InsertMetadata(db, collection, tableName, schemas).value;
            Matching(r.0.metadata, collection, tableName) == r.1
  {
    var r := InsertMetadata(db, collection, tableName, schemas).value;
    var others := Others(db.metadata, collection, tableName);
    var p := (m: MetaRow) => IsTable(m, collection, tableName);
    FilterAppend(others, r.1, p);
    FilterKeepsNone(others, p);
    forall k | 0 <= k < |r.1|
      ensures p(r.1[k])
    {
      MetadataBounds(db, collection, tableName, schemas, k);
    }
    FilterKeepsAll(r.1, p);
    assert [] + r.1 == r.1;
  }

  /** Two inserted rows for the same column carry the same type, even
      when the production table repeats a column name. */
  lemma InsertedTypesConsistent(db: Db, collection: string, tableName: string, schemas: SchemaDict)
    requires InsertMetadata(db, collection, tableName, schemas).Ok?
    ensures var rows := InsertMetadata(db, collection, tableName, schemas).value.1;
            forall i, j :: 0 <= i < |rows| && 0 <= j < |rows| && rows[i].columnName == rows[j].columnName ==>
              rows[i].dtype == rows[j].dtype
  {
  }

  /** What `insert_metadata` writes is what `load_column_info` reads
      back: one entry per described column, typed as the schema
      declares; nothing is read back exactly when no column had a
      value. */
  lemma {:induction false} InsertThenLoad(db: Db, collection: string, tableName: string, schemas: SchemaDict)
    requires InsertMetadata(db, collection, tableName, schemas).Ok?
    ensures var r := InsertMetadata(db, collection, tableName, schemas).value;
            var info := LoadColumnInfo(r.0.metadata, collection, tableName);
            && (|r.1| == 0 <==> info == Err(NoMetadata))
            && (info.Ok? <==> |r.1| > 0 && forall k :: 0 <= k < |r.1| ==> r.1[k].dtype in DTYPES)
            && (info.Ok? ==> forall k :: 0 <= k < |r.1| ==>
                  r.1[k].columnName in info.value.sqlTypes && info.value.sqlTypes[r.1[k].columnName] == r.1[k].dtype)
  {
    var r := InsertMetadata(db, collection, tableName, schemas).value;
    InsertedRowsMatch(db, collection, tableName, schemas);
    InsertedTypesConsistent(db, collection, tableName, schemas);
    LoadReadsBack(r.0.metadata, collection, tableName, r.1);
  }

  /** Loading a table whose metadata rows are `rows`, which agree on each
      column's type, gives back each row's type. */
  lemma LoadReadsBack(metadata: seq<MetaRow>, collection: string, tableName: string, rows: seq<MetaRow>)
    requires Matching(metadata, collection, tableName) == rows
    requires forall i, j :: 0 <= i < |rows| && 0 <= j < |rows| && rows[i].columnName == rows[j].columnName ==>
               rows[i].dtype == rows[j].dtype
    ensures var info := LoadColumnInfo(metadata, collection, tableName);
            && (|rows| == 0 <==> info == Err(NoMetadata))
            && (info.Ok? <==> |rows| > 0 && forall k :: 0 <= k < |rows| ==> rows[k].dtype in DTYPES)
            && (info.Ok? ==> forall k :: 0 <= k < |rows| ==>
                  rows[k].columnName in info.value.sqlTypes && info.value.sqlTypes[rows[k].columnName] == rows[k].dtype)
  {
    TypesOfConsistent(rows);
    if |rows| > 0 {
      assert rows[0] in metadata;
    }
    var types := TypesOf(rows);
    assert (forall c :: c in types ==> types[c] in DTYPES) <==>
           (forall k :: 0 <= k < |rows| ==> rows[k].dtype in DTYPES) by {
      if forall k :: 0 <= k < |rows| ==> rows[k].dtype in DTYPES {
        forall c | c in types
          ensures types[c] in DTYPES
        {
          var k :| 0 <= k < |rows| && rows[k].columnName == c;
        }
      }
    }
  }
}
