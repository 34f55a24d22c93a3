/** Schema enforcement applied to every freshly transformed frame before it
    is ingested (`validate_schema`, which exists twice in the repository
    with identical bodies): duplicate keys are rejected, the index becomes
    ordinary columns, the table name is attached, and every column is
    checked against the collection's schema and cast to its declared type. */
module Validation {
  import opened Results
  import opened Seqs
  import opened Frames
  import opened Schemas
  import opened Settings

  /** The two pandas conversions the casts rely on, left uninterpreted:
      `toNumber` is what `pd.to_numeric` makes of a non-numeric cell
      (`None` for a token it cannot parse, such as a suppression symbol),
      `toText` what `astype(str)` prints for a non-text cell. */
  datatype Conversions = Conversions(toNumber: Value -> Option<real>, toText: Value -> string)

  datatype SchemaError =
    | DuplicateIndex
    | UnknownCollection
    | IndexClash
    | UnexpectedColumn(column: string)
    | MissingNullable(column: string)
    | UnknownType(column: string)
    | Unparsable(column: string)
    | NullsInNonNullable(column: string)

  /** A frame as the transformations hand it over: named index levels, one
      index key per row, and the data columns. */
  datatype IndexedFrame = IndexedFrame(levels: seq<string>, keys: seq<seq<Value>>, data: Frame)

  /** The shape every data frame has: one key per row, one key part per
      level, and no column name used twice. */
  predicate Shaped(f: IndexedFrame)
  {
    && |f.keys| == |f.data.rows|
    && (forall i :: 0 <= i < |f.keys| ==> |f.keys[i]| == |f.levels|)
    && Distinct(f.data.columns)
  }

  /** `df.index.duplicated().sum() > 0`. */
  predicate HasDuplicateIndex(f: IndexedFrame)
  {
    exists i, j :: 0 <= i < j < |f.keys| && f.keys[i] == f.keys[j]
  }

  /** `reset_index` refuses a level whose name is already taken. */
  predicate ResetClashes(f: IndexedFrame)
  {
    !Distinct(f.levels + f.data.columns)
  }

  /** Columns after `reset_index` and `df["table_name"] = table_name`: the
      index levels in front, then the data columns, then `table_name` unless
      one of them already has that name (it is then overwritten in place). */
  function StagedColumns(f: IndexedFrame): (r: seq<string>)
    ensures forall c :: c in r <==> c in f.levels || c in f.data.columns || c == "table_name"
  {
    var cols := f.levels + f.data.columns;
    if "table_name" in cols then cols else cols + ["table_name"]
  }

  function IndexOf(s: seq<string>, x: string): (k: nat)
    requires x in s
    ensures k < |s| && s[k] == x
    ensures forall j :: 0 <= j < k ==> s[j] != x
  {
    if s[0] == x then 0 else 1 + IndexOf(s[1..], x)
  }

  /** Cell `c` of row `i` before casting. */
  function StagedCell(f: IndexedFrame, tableName: string, i: nat, c: string): Value
    requires Shaped(f) && i < |f.data.rows|
  {
    if c == "table_name" then Text(tableName)
    else if c in f.levels then f.keys[i][IndexOf(f.levels, c)]
    else Get(f.data.rows[i], c)
  }

  function StagedColumn(f: IndexedFrame, tableName: string, c: string): (r: seq<Value>)
    requires Shaped(f)
    ensures |r| == |f.data.rows|
    ensures forall i :: 0 <= i < |r| ==> r[i] == StagedCell(f, tableName, i, c)
  {
    seq(|f.data.rows|, i requires 0 <= i < |f.data.rows| => StagedCell(f, tableName, i, c))
  }

  /** `pd.to_numeric(..., errors="coerce")` on one cell. */
  function ToNumeric(v: Value, conv: Conversions): Value
  {
    match v
    case Null => Null
    case Num(x) => Num(x)
    case _ => match conv.toNumber(v)
              case Some(x) => Num(x)
              case None => Null
  }

  /** `astype(str)` on one cell. */
  function ToText(v: Value, conv: Conversions): Value
  {
    match v
    case Text(s) => Text(s)
    case _ => Text(conv.toText(v))
  }

  /** The cast a column of Python type `py` undergoes, cell by cell. */
  function CastCell(py: PyType, v: Value, conv: Conversions): Value
  {
    match py
    case PyFloat => ToNumeric(v, conv)
    case PyInt => ToNumeric(v, conv)
    case PyStr => ToText(v, conv)
    case NoCast => v
  }

  function CastValues(py: PyType, vs: seq<Value>, conv: Conversions): (r: seq<Value>)
    ensures |r| == |vs|
    ensures forall i :: 0 <= i < |vs| ==> r[i] == CastCell(py, vs[i], conv)
  {
    seq(|vs|, i requires 0 <= i < |vs| => CastCell(py, vs[i], conv))
  }

  /** One iteration of the column loop: schema membership, the schema
      entry's keys, the cast, the all-unparsable check for floats and the
      null check for non-nullable columns. */
  function CheckColumn(schema: Schema, c: string, vs: seq<Value>, conv: Conversions): (r: Result<seq<Value>, SchemaError>)
    ensures r.Ok? ==> Lookup(schema, c).Some? && r.value == CastValues(DeclaredType(schema, c), vs, conv)
  {
    match Lookup(schema, c)
    case None => Err(UnexpectedColumn(c))
    case Some(spec) =>
      if spec.nullable.None? then Err(MissingNullable(c))
      else if spec.sqlType !in DTYPES then Err(UnknownType(c))
      else
        var cast := CastValues(DTYPES[spec.sqlType], vs, conv);
        if DTYPES[spec.sqlType] == PyFloat && NonNullCount(cast) == 0 then Err(Unparsable(c))
        else if NonNullCount(cast) < |cast| && !spec.nullable.value then Err(NullsInNonNullable(c))
        else Ok(cast)
  }

  /** The column loop: columns are checked in frame order and the first
      failing one aborts the whole validation. */
  function CheckColumns(schema: Schema, cols: seq<string>, column: string -> seq<Value>, conv: Conversions)
    : (r: Result<seq<seq<Value>>, SchemaError>)
    ensures r.Ok? <==> forall k :: 0 <= k < |cols| ==> CheckColumn(schema, cols[k], column(cols[k]), conv).Ok?
    ensures r.Ok? ==>
              |r.value| == |cols| &&
              forall k :: 0 <= k < |cols| ==> r.value[k] == CheckColumn(schema, cols[k], column(cols[k]), conv).value
    ensures r.Err? ==>
              exists k :: 0 <= k < |cols| &&
                CheckColumn(schema, cols[k], column(cols[k]), conv) == Err(r.error) &&
                forall j :: 0 <= j < k ==> CheckColumn(schema, cols[j], column(cols[j]), conv).Ok?
  {
    MapUntilError(cols, c => CheckColumn(schema, c, column(c), conv))
  }

  /** The Python type the schema declares for `c`, for a column that
      passed its check. */
  function DeclaredType(schema: Schema, c: string): PyType
  {
    match Lookup(schema, c)
    case Some(spec) => if spec.sqlType in DTYPES then DTYPES[spec.sqlType] else NoCast
    case None => NoCast
  }

  /** `validate_schema(data_collection, table_name, df, schema_dict)`. */
  function ValidateSchema(collection: string, tableName: string, f: IndexedFrame,
                          schemas: SchemaDict, conv: Conversions): (r: Result<Frame, SchemaError>)
    requires Shaped(f)
    ensures HasDuplicateIndex(f) ==> r == Err(DuplicateIndex)
    ensures !HasDuplicateIndex(f) && collection !in schemas ==> r == Err(UnknownCollection)
    ensures !HasDuplicateIndex(f) && collection in schemas && ResetClashes(f) ==> r == Err(IndexClash)
    ensures r.Ok? ==>
              && collection in schemas
              && r.value.columns == StagedColumns(f)
              && |r.value.rows| == |f.data.rows|
              && (forall c :: c in r.value.columns ==> Lookup(schemas[collection], c).Some?)
              && forall i, c :: 0 <= i < |r.value.rows| && c in r.value.columns ==>
                   c in r.value.rows[i] &&
                   r.value.rows[i][c] == CastCell(DeclaredType(schemas[collection], c), StagedCell(f, tableName, i, c), conv)
  {
    if HasDuplicateIndex(f) then Err(DuplicateIndex)
    else if collection !in schemas then Err(UnknownCollection)
    else if ResetClashes(f) then Err(IndexClash)
    else CastColumns(schemas[collection], tableName, f, conv)
  }

  /** The loop over the staged columns and the frame it leaves behind. */
  function CastColumns(schema: Schema, tableName: string, f: IndexedFrame, conv: Conversions)
    : (r: Result<Frame, SchemaError>)
    requires Shaped(f)
    ensures var checked := CheckColumns(schema, StagedColumns(f), c => StagedColumn(f, tableName, c), conv);
            (r.Ok? <==> checked.Ok?) && (r.Err? ==> r.error == checked.error)
    ensures r.Ok? ==>
              && r.value.columns == StagedColumns(f)
              && |r.value.rows| == |f.data.rows|
              && (forall c :: c in r.value.columns ==> Lookup(schema, c).Some?)
              && forall i, c :: 0 <= i < |r.value.rows| && c in r.value.columns ==>
                   c in r.value.rows[i] &&
                   r.value.rows[i][c] == CastCell(DeclaredType(schema, c), StagedCell(f, tableName, i, c), conv)
  {
    var cols := StagedColumns(f);
    match CheckColumns(schema, cols, c => StagedColumn(f, tableName, c), conv)
    case Err(e) => Err(e)
    case Ok(cast) =>
      var rows := Assemble(cols, cast, |f.data.rows|);
      forall i, c | 0 <= i < |rows| && c in cols
        ensures rows[i][c] == CastCell(DeclaredType(schema, c), StagedCell(f, tableName, i, c), conv)
      {
        var k := IndexOf(cols, c);
        assert cast[k] == CastValues(DeclaredType(schema, c), StagedColumn(f, tableName, c), conv);
      }
      Ok(Frame(cols, rows))
  }

  /** Turns the cast columns back into rows. */
  function Assemble(cols: seq<string>, cast: seq<seq<Value>>, n: nat): (rows: seq<Row>)
    requires |cast| == |cols|
    requires forall k :: 0 <= k < |cast| ==> |cast[k]| == n
    ensures |rows| == n
    ensures forall i, c :: 0 <= i < n && c in cols ==> c in rows[i] && rows[i][c] == cast[IndexOf(cols, c)][i]
  {
    seq(n, i requires 0 <= i < n => map c | c in cols :: cast[IndexOf(cols, c)][i])
  }
}

/** What schema enforcement promises, stated cell by cell. */
module ValidationFacts {
  import opened Results
  import opened Frames
  import opened Schemas
  import opened Settings
  import opened Validation

  /** Declarative reading of one column check: the column is in the schema,
      its entry states nullability, its type has a cast, a float column
      keeps at least one parsed value, and a non-nullable column keeps no
      null after casting. */
  predicate ColumnAccepted(schema: Schema, c: string, vs: seq<Value>, conv: Conversions)
  {
    match Lookup(schema, c)
    case None => false
    case Some(spec) =>
      && spec.nullable.Some?
      && spec.sqlType in DTYPES
      && (DTYPES[spec.sqlType] == PyFloat ==>
            exists i :: 0 <= i < |vs| && CastCell(PyFloat, vs[i], conv) != Null)
      && (!spec.nullable.value ==>
            forall i :: 0 <= i < |vs| ==> CastCell(DTYPES[spec.sqlType], vs[i], conv) != Null)
  }

  lemma CheckColumnAccepts(schema: Schema, c: string, vs: seq<Value>, conv: Conversions)
    ensures CheckColumn(schema, c, vs, conv).Ok? <==> ColumnAccepted(schema, c, vs, conv)
  {
    match Lookup(schema, c)
    case None =>
    case Some(spec) =>
      if spec.nullable.Some? && spec.sqlType in DTYPES {
        var py := DTYPES[spec.sqlType];
        var cast := CastValues(py, vs, conv);
        NonNullCountBounds(cast);
      }
  }

  /** A validated frame is accepted exactly when there is no duplicate key,
      the collection has a schema, the index levels do not clash with the
      columns, and every staged column passes its check. */
  lemma ValidateAcceptsIff(collection: string, tableName: string, f: IndexedFrame,
                           schemas: SchemaDict, conv: Conversions)
    requires Shaped(f)
    ensures ValidateSchema(collection, tableName, f, schemas, conv).Ok? <==>
              && !HasDuplicateIndex(f)
              && collection in schemas
              && !ResetClashes(f)
              && forall c :: c in StagedColumns(f) ==>
                   ColumnAccepted(schemas[collection], c, StagedColumn(f, tableName, c), conv)
  {
    if !HasDuplicateIndex(f) && collection in schemas && !ResetClashes(f) {
      var cols := StagedColumns(f);
      forall c | c in cols
        ensures CheckColumn(schemas[collection], c, StagedColumn(f, tableName, c), conv).Ok? <==>
                ColumnAccepted(schemas[collection], c, StagedColumn(f, tableName, c), conv)
      {
        CheckColumnAccepts(schemas[collection], c, StagedColumn(f, tableName, c), conv);
      }
    }
  }

  /** A REAL column keeps every number exactly, turns exactly the cells the
      parser rejects into nulls, and is never entirely null. */
  lemma RealColumnParse(collection: string, tableName: string, f: IndexedFrame,
                        schemas: SchemaDict, conv: Conversions, c: string)
    requires Shaped(f)
    requires ValidateSchema(collection, tableName, f, schemas, conv).Ok?
    requires collection in schemas && Lookup(schemas[collection], c).Some?
    requires Lookup(schemas[collection], c).value.sqlType == "REAL"
    requires c in StagedColumns(f)
    ensures var out := ValidateSchema(collection, tableName, f, schemas, conv).value;
            && (forall i :: 0 <= i < |out.rows| ==>
                  out.rows[i][c] == ParsedReal(StagedCell(f, tableName, i, c), conv))
            && exists i :: 0 <= i < |out.rows| && out.rows[i][c] != Null
  {
    var out := ValidateSchema(collection, tableName, f, schemas, conv).value;
    var schema := schemas[collection];
    assert DeclaredType(schema, c) == PyFloat;
    forall i | 0 <= i < |out.rows|
      ensures out.rows[i][c] == ParsedReal(StagedCell(f, tableName, i, c), conv)
    {
      assert out.rows[i][c] == CastCell(PyFloat, StagedCell(f, tableName, i, c), conv);
    }
    var vs := StagedColumn(f, tableName, c);
    AcceptedColumn(collection, tableName, f, schemas, conv, c);
    var i :| 0 <= i < |vs| && CastCell(PyFloat, vs[i], conv) != Null;
    assert out.rows[i][c] == CastCell(PyFloat, vs[i], conv);
  }

  /** What a REAL cell becomes: a number stays, a token the parser accepts
      becomes its number, anything else becomes null. */
  function ParsedReal(v: Value, conv: Conversions): (r: Value)
    ensures v.Num? ==> r == v
    ensures v.Null? ==> r == Null
    ensures !v.Num? && !v.Null? ==> r == (if conv.toNumber(v).Some? then Num(conv.toNumber(v).value) else Null)
  {
    ToNumeric(v, conv)
  }

  /** Every staged column of an accepted frame passed its check. */
  lemma AcceptedColumn(collection: string, tableName: string, f: IndexedFrame,
                       schemas: SchemaDict, conv: Conversions, c: string)
    requires Shaped(f)
    requires ValidateSchema(collection, tableName, f, schemas, conv).Ok?
    requires c in StagedColumns(f)
    ensures collection in schemas
    ensures ColumnAccepted(schemas[collection], c, StagedColumn(f, tableName, c), conv)
  {
    ValidateAcceptsIff(collection, tableName, f, schemas, conv);
  }

  /** After casting, a column declared non-nullable holds no null. */
  lemma NonNullableHoldsNoNull(collection: string, tableName: string, f: IndexedFrame,
                               schemas: SchemaDict, conv: Conversions, c: string)
    requires Shaped(f)
    requires ValidateSchema(collection, tableName, f, schemas, conv).Ok?
    requires collection in schemas && Lookup(schemas[collection], c).Some?
    requires Lookup(schemas[collection], c).value.nullable == Some(false)
    requires c in StagedColumns(f)
    ensures var out := ValidateSchema(collection, tableName, f, schemas, conv).value;
            forall i :: 0 <= i < |out.rows| ==> out.rows[i][c] != Null
  {
    var out := ValidateSchema(collection, tableName, f, schemas, conv).value;
    var schema := schemas[collection];
    var vs := StagedColumn(f, tableName, c);
    AcceptedColumn(collection, tableName, f, schemas, conv, c);
    forall i | 0 <= i < |out.rows|
      ensures out.rows[i][c] != Null
    {
      assert out.rows[i][c] == CastCell(DeclaredType(schema, c), vs[i], conv);
    }
  }

  /** A schema entry without a `nullable` key is an error, whatever the
      column holds. */
  lemma NullableKeyRequired(schema: Schema, c: string, vs: seq<Value>, conv: Conversions)
    requires Lookup(schema, c).Some? && Lookup(schema, c).value.nullable.None?
    ensures CheckColumn(schema, c, vs, conv) == Err(MissingNullable(c))
  {
  }

  /** TEXT columns are stringified unconditionally, so they pass even when
      declared non-nullable and full of missing cells. */
  lemma TextColumnNeverNull(schema: Schema, c: string, vs: seq<Value>, conv: Conversions)
    requires Lookup(schema, c).Some? && Lookup(schema, c).value.sqlType == "TEXT"
    requires Lookup(schema, c).value.nullable.Some?
    ensures CheckColumn(schema, c, vs, conv).Ok?
    ensures forall i :: 0 <= i < |vs| ==> CheckColumn(schema, c, vs, conv).value[i].Text?
  {
    CheckColumnAccepts(schema, c, vs, conv);
  }

  /** INTEGER columns have no all-null check: a nullable INTEGER column of
      which nothing parses is accepted as all nulls. */
  lemma SparseIntegerAccepted(schema: Schema, c: string, vs: seq<Value>, conv: Conversions)
    requires Lookup(schema, c) == Some(ColumnSpec("INTEGER", Some(true)))
    requires forall i :: 0 <= i < |vs| ==> !vs[i].Num? && conv.toNumber(vs[i]).None?
    ensures CheckColumn(schema, c, vs, conv).Ok?
    ensures forall i :: 0 <= i < |vs| ==> CheckColumn(schema, c, vs, conv).value[i] == Null
  {
  }

  /** A REAL column of which nothing parses is rejected, even a nullable
      one, and even when the frame has no rows at all. */
  lemma UnparsableRealRejected(schema: Schema, c: string, vs: seq<Value>, conv: Conversions)
    requires Lookup(schema, c).Some? && Lookup(schema, c).value.sqlType == "REAL"
    requires Lookup(schema, c).value.nullable.Some?
    requires forall i :: 0 <= i < |vs| ==> !vs[i].Num? && conv.toNumber(vs[i]).None?
    ensures CheckColumn(schema, c, vs, conv) == Err(Unparsable(c))
  {
    NonNullCountBounds(CastValues(PyFloat, vs, conv));
  }

  /** DATETIME columns pass through uncast; the null check is the only one
      they face. */
  lemma DatetimePassesThrough(schema: Schema, c: string, vs: seq<Value>, conv: Conversions)
    requires Lookup(schema, c).Some? && Lookup(schema, c).value.sqlType == "DATETIME"
    requires Lookup(schema, c).value.nullable.Some?
    ensures CheckColumn(schema, c, vs, conv).Ok? <==>
              Lookup(schema, c).value.nullable.value || forall i :: 0 <= i < |vs| ==> vs[i] != Null
    ensures CheckColumn(schema, c, vs, conv).Ok? ==> CheckColumn(schema, c, vs, conv).value == vs
  {
    CheckColumnAccepts(schema, c, vs, conv);
  }

  /** One cell of an accepted frame: the staged value, cast. */
  lemma ValidatedCell(collection: string, tableName: string, f: IndexedFrame,
                      schemas: SchemaDict, conv: Conversions, i: nat, c: string)
    requires Shaped(f)
    requires ValidateSchema(collection, tableName, f, schemas, conv).Ok?
    requires i < |f.data.rows| && c in StagedColumns(f)
    ensures var out := ValidateSchema(collection, tableName, f, schemas, conv).value;
            && collection in schemas
            && i < |out.rows| && c in out.rows[i]
            && out.rows[i][c] == CastCell(DeclaredType(schemas[collection], c), StagedCell(f, tableName, i, c), conv)
  {
  }

  lemma TextDeclaresStr(schema: Schema, c: string)
    requires Lookup(schema, c).Some? && Lookup(schema, c).value.sqlType == "TEXT"
    ensures DeclaredType(schema, c) == PyStr
  {
  }

  /** The attached `table_name` column carries the argument on every row
      when the schema declares it as text. */
  lemma TableNameAttached(collection: string, tableName: string, f: IndexedFrame,
                          schemas: SchemaDict, conv: Conversions)
    requires Shaped(f)
    requires ValidateSchema(collection, tableName, f, schemas, conv).Ok?
    requires collection in schemas && Lookup(schemas[collection], "table_name").Some?
    requires Lookup(schemas[collection], "table_name").value.sqlType == "TEXT"
    ensures var out := ValidateSchema(collection, tableName, f, schemas, conv).value;
            "table_name" in out.columns &&
            forall i :: 0 <= i < |out.rows| ==> out.rows[i]["table_name"] == Text(tableName)
  {
    var out := ValidateSchema(collection, tableName, f, schemas, conv).value;
    var schema := schemas[collection];
    assert "table_name" in out.columns;
    TextDeclaresStr(schema, "table_name");
    forall i | 0 <= i < |out.rows|
      ensures out.rows[i]["table_name"] == Text(tableName)
    {
      ValidatedCell(collection, tableName, f, schemas, conv, i, "table_name");
    }
  }

  /** The first column, in frame order, that fails its check decides the
      error; every column before it passed. */
  lemma FirstFailingColumnDecides(collection: string, tableName: string, f: IndexedFrame,
                                  schemas: SchemaDict, conv: Conversions)
    requires Shaped(f)
    requires !HasDuplicateIndex(f) && collection in schemas && !ResetClashes(f)
    requires ValidateSchema(collection, tableName, f, schemas, conv).Err?
    ensures var cols := StagedColumns(f);
            exists k :: 0 <= k < |cols| &&
              CheckColumn(schemas[collection], cols[k], StagedColumn(f, tableName, cols[k]), conv)
                == Err(ValidateSchema(collection, tableName, f, schemas, conv).error) &&
              forall j :: 0 <= j < k ==>
                ColumnAccepted(schemas[collection], cols[j], StagedColumn(f, tableName, cols[j]), conv)
  {
    var cols := StagedColumns(f);
    var schema := schemas[collection];
    var k :| 0 <= k < |cols| &&
             CheckColumn(schema, cols[k], StagedColumn(f, tableName, cols[k]), conv) ==
               Err(ValidateSchema(collection, tableName, f, schemas, conv).error) &&
             forall j :: 0 <= j < k ==> CheckColumn(schema, cols[j], StagedColumn(f, tableName, cols[j]), conv).Ok?;
    forall j | 0 <= j < k
      ensures ColumnAccepted(schema, cols[j], StagedColumn(f, tableName, cols[j]), conv)
    {
      CheckColumnAccepts(schema, cols[j], StagedColumn(f, tableName, cols[j]), conv);
    }
  }
}
