/** The SQL text the store is driven by: the DDL for data tables and for
    the ingest log, and the one SELECT template every read goes through.
    Whitespace is reproduced character for character, since the queries
    are compared and executed as strings. */
module SqlText {
  import opened Results
  import opened Strings
  import opened Schemas

  datatype SqlError = UnknownCollection(prefix: string)

  /** `f"[{col}] {sql_type} {nullable}".strip()`, where `nullable` is
      `"NOT NULL"` only when the schema says `nullable: false`. */
  function ColumnDef(c: SchemaColumn): string
  {
    var nn := if c.spec.nullable == Some(false) then "NOT NULL" else "";
    Strip("[" + c.name + "] " + c.spec.sqlType + " " + nn)
  }

  function ColumnDefs(schema: Schema): (r: seq<string>)
    ensures |r| == |schema|
    ensures forall i :: 0 <= i < |schema| ==> r[i] == ColumnDef(schema[i])
  {
    seq(|schema|, i requires 0 <= i < |schema| => ColumnDef(schema[i]))
  }

  const TABLE_SEP: string := ",\n    "
  const TABLE_FOOTER: string := "\n);\n        "

  function TableHeader(destination: string): string
  {
    "\n        CREATE TABLE IF NOT EXISTS [" + destination + "] (\n    \n        "
  }

  /** `generate_create_table_sql(table_prefix, table_env, schema_dict)`:
      a `KeyError` for a collection without a schema. */
  function CreateTableSql(prefix: string, env: string, schemas: SchemaDict): (r: Result<string, SqlError>)
    ensures r.Err? <==> prefix !in schemas
    ensures r.Err? ==> r.error == UnknownCollection(prefix)
    ensures r.Ok? ==>
              TableHeader(prefix + "_" + env) <= r.value &&
              Unwrap(r.value, TableHeader(prefix + "_" + env), TABLE_FOOTER) == Some(Join(ColumnDefs(schemas[prefix]), TABLE_SEP))
  {
    if prefix !in schemas then Err(UnknownCollection(prefix))
    else
      var header := TableHeader(prefix + "_" + env);
      var body := Join(ColumnDefs(schemas[prefix]), TABLE_SEP);
      UnwrapWrap(header, body, TABLE_FOOTER);
      Ok(header + body + TABLE_FOOTER)
  }

  /** The text between a known header and footer, if `s` has both. */
  function Unwrap(s: string, header: string, footer: string): Option<string>
  {
    if |header| + |footer| <= |s| && header <= s && s[|s| - |footer|..] == footer
    then Some(s[|header|..|s| - |footer|])
    else None
  }

  lemma PrefixOfPrefix(a: string, b: string, c: string)
    requires a <= b && b <= c
    ensures a <= c
  {
    assert c[..|a|] == b[..|a|];
  }

  lemma UnwrapWrap(header: string, body: string, footer: string)
    ensures header <= header + body + footer
    ensures Unwrap(header + body + footer, header, footer) == Some(body)
  {
    var s := header + body + footer;
    assert s[..|header|] == header;
    assert s[|s| - |footer|..] == footer;
    assert s[|header|..|s| - |footer|] == body;
  }

  /** Reads the column definitions back out of a CREATE TABLE statement
      laid out with the given header, separator and footer. */
  function ParseDefs(sql: string, header: string, sep: string, footer: string): Option<seq<string>>
    requires |sep| > 0
  {
    match Unwrap(sql, header, footer)
    case None => None
    case Some(body) => Some(Split(body, sep))
  }

  /** A statement laid out as header, joined definitions and footer reads
      back as those definitions when none holds the separator's first
      character. */
  lemma {:induction false} ParseDefsJoin(header: string, defs: seq<string>, sep: string, footer: string)
    requires |defs| > 0 && |sep| > 0
    requires sep[0] !in sep[1..]
    requires forall i :: 0 <= i < |defs| ==> sep[0] !in defs[i]
    ensures ParseDefs(header + Join(defs, sep) + footer, header, sep, footer) == Some(defs)
  {
    UnwrapWrap(header, Join(defs, sep), footer);
    SplitJoin(defs, sep);
  }

  /** The only characters a column definition holds besides its name and
      type are brackets, spaces and the letters of `NOT NULL`. */
  lemma ColumnDefAvoids(c: SchemaColumn, ch: char)
    requires ch !in c.name && ch !in c.spec.sqlType
    requires ch != '[' && ch != ']' && ch != ' ' && ch !in "NOT NULL"
    ensures ch !in ColumnDef(c)
  {
    var nn := if c.spec.nullable == Some(false) then "NOT NULL" else "";
    var s := "[" + c.name + "] " + c.spec.sqlType + " " + nn;
    assert ch !in s;
    var t := TrimRight(s);
    assert t == s[..|t|];
    assert ch !in t;
  }

  lemma ColumnDefCommaFree(c: SchemaColumn)
    requires ',' !in c.name && ',' !in c.spec.sqlType
    ensures ',' !in ColumnDef(c)
  {
    assert ',' !in "NOT NULL";
    ColumnDefAvoids(c, ',');
  }

  lemma TableSepCommaFirst()
    ensures |TABLE_SEP| > 0 && TABLE_SEP[0] == ',' && ',' !in TABLE_SEP[1..]
  {
  }

  /** With a non-empty type that does not end in whitespace, `strip`
      only removes the blank left by a nullable column. */
  lemma ColumnDefForm(c: SchemaColumn)
    requires |c.spec.sqlType| > 0 && !IsSpace(c.spec.sqlType[|c.spec.sqlType| - 1])
    ensures ColumnDef(c) ==
              "[" + c.name + "] " + c.spec.sqlType + (if c.spec.nullable == Some(false) then " NOT NULL" else "")
  {
    var base := "[" + c.name + "] " + c.spec.sqlType;
    assert base[|base| - 1] == c.spec.sqlType[|c.spec.sqlType| - 1];
    if c.spec.nullable == Some(false) {
      var s := base + " " + "NOT NULL";
      assert s == base + " NOT NULL";
      assert s[|s| - 1] == 'L' && s[0] == '[';
      assert TrimRight(s) == s;
    } else {
      var s := base + " " + "";
      assert s == base + " ";
      TrimRightBlank(base);
      assert TrimRight(base) == base;
      assert base[0] == '[';
    }
  }

  /** A definition declares the column `NOT NULL`. */
  predicate DeclaresNotNull(d: string)
  {
    |d| >= 9 && d[|d| - 9..] == " NOT NULL"
  }

  /** None of the store's type names ends in `LL` or in a blank. */
  lemma KnownTypeEnding(t: string)
    requires t in {"TEXT", "INTEGER", "REAL", "DATETIME"}
    ensures |t| >= 2 && !IsSpace(t[|t| - 1]) && t[|t| - 2] != 'L'
  {
  }

  /** For the types the store knows, the DDL says `NOT NULL` exactly when
      the schema marks the column `nullable: false`; an omitted
      `nullable` means nullable. */
  lemma NotNullIff(c: SchemaColumn)
    requires c.spec.sqlType in {"TEXT", "INTEGER", "REAL", "DATETIME"}
    ensures DeclaresNotNull(ColumnDef(c)) <==> c.spec.nullable == Some(false)
  {
    var t := c.spec.sqlType;
    KnownTypeEnding(t);
    ColumnDefForm(c);
    var d := ColumnDef(c);
    if c.spec.nullable != Some(false) {
      assert d == "[" + c.name + "] " + t;
      assert d[|d| - 1] == t[|t| - 1];
      assert d[|d| - 2] == t[|t| - 2];
    }
  }

  /** The CREATE TABLE statement reads back as one definition per schema
      column, in schema order, as long as no name or type holds a comma. */
  lemma {:induction false} CreateTableRoundTrip(prefix: string, env: string, schemas: SchemaDict)
    requires prefix in schemas && |schemas[prefix]| > 0
    requires forall i :: 0 <= i < |schemas[prefix]| ==>
               ',' !in schemas[prefix][i].name && ',' !in schemas[prefix][i].spec.sqlType
    ensures CreateTableSql(prefix, env, schemas).Ok?
    ensures ParseDefs(CreateTableSql(prefix, env, schemas).value, TableHeader(prefix + "_" + env), TABLE_SEP, TABLE_FOOTER)
              == Some(ColumnDefs(schemas[prefix]))
  {
    var defs := ColumnDefs(schemas[prefix]);
    forall i | 0 <= i < |defs|
      ensures ',' !in defs[i]
    {
      ColumnDefCommaFree(schemas[prefix][i]);
    }
    TableSepCommaFirst();
    ParseDefsJoin(TableHeader(prefix + "_" + env), defs, TABLE_SEP, TABLE_FOOTER);
  }

  /** The ingest log's column definitions, in declaration order. */
  const LOG_DEFS: seq<string> := [
    "ingest_id INTEGER PRIMARY KEY AUTOINCREMENT",
    "ingest_ts DATETIME NOT NULL",
    "data_collection TEXT NOT NULL",
    "table_name TEXT NOT NULL",
    "url TEXT",
    "success INTEGER"
  ]

  const LOG_HEADER: string := "\n        CREATE TABLE IF NOT EXISTS [_ingest_log] (\n\n            "
  const LOG_SEP: string := ",\n            "
  const LOG_FOOTER: string := "\n            );\n    "

  /** `generate_create_log_sql()`. */
  function CreateLogSql(): (r: string)
    ensures LOG_HEADER <= r
    ensures Unwrap(r, LOG_HEADER, LOG_FOOTER) == Some(Join(LOG_DEFS, LOG_SEP))
  {
    UnwrapWrap(LOG_HEADER, Join(LOG_DEFS, LOG_SEP), LOG_FOOTER);
    LOG_HEADER + Join(LOG_DEFS, LOG_SEP) + LOG_FOOTER
  }

  /** The log DDL reads back as its six column definitions. */
  lemma {:induction false} CreateLogRoundTrip()
    ensures ParseDefs(CreateLogSql(), LOG_HEADER, LOG_SEP, LOG_FOOTER) == Some(LOG_DEFS)
  {
    LogDefsCommaFree();
    ParseDefsJoin(LOG_HEADER, LOG_DEFS, LOG_SEP, LOG_FOOTER);
  }

  lemma LogDefsCommaFree()
    ensures ',' !in LOG_SEP[1..]
    ensures forall i :: 0 <= i < |LOG_DEFS| ==> ',' !in LOG_DEFS[i]
  {
    LogKeyDefsCommaFree();
    LogDataDefsCommaFree();
  }

  lemma LogKeyDefsCommaFree()
    ensures ',' !in LOG_DEFS[0] && ',' !in LOG_DEFS[1] && ',' !in LOG_DEFS[2]
  {
    LogIdDefCommaFree();
    assert ',' !in LOG_DEFS[1];
  }

  lemma LogIdDefCommaFree()
    ensures ',' !in LOG_DEFS[0]
  {
  }

  lemma LogDataDefsCommaFree()
    ensures ',' !in LOG_DEFS[3] && ',' !in LOG_DEFS[4] && ',' !in LOG_DEFS[5]
  {
    assert ',' !in LOG_DEFS[3];
    assert ',' !in LOG_DEFS[4];
  }

  /** The id is the auto-incremented primary key; the timestamp, the
      collection and the table name are mandatory; the url and the
      success flag may be null. */
  lemma LogConstraints()
    ensures LOG_DEFS[0] == "ingest_id INTEGER PRIMARY KEY AUTOINCREMENT"
    ensures forall i :: 1 <= i < 4 ==> DeclaresNotNull(LOG_DEFS[i])
    ensures forall i :: 4 <= i < 6 ==> !DeclaresNotNull(LOG_DEFS[i])
  {
    assert LOG_DEFS[1][|LOG_DEFS[1]| - 9..] == " NOT NULL";
    assert LOG_DEFS[2][|LOG_DEFS[2]| - 9..] == " NOT NULL";
    assert LOG_DEFS[3][|LOG_DEFS[3]| - 9..] == " NOT NULL";
    assert LOG_DEFS[4][|LOG_DEFS[4]| - 1] == 'T';
    assert LOG_DEFS[5][|LOG_DEFS[5]| - 1] == 'R';
  }

  /** `", ".join(cols)` or `"*\n"` when no columns are given. */
  function SelectBlock(cols: Option<seq<string>>): string
  {
    match cols
    case None => "*\n"
    case Some(cs) => Join(cs, ", ")
  }

  const SELECT_OPEN: string := "\n        SELECT "
  const SELECT_GAP: string := " \n            "
  const WHERE_OPEN: string := "WHERE \n\t"

  function SelectHeader(distinct: bool): string
  {
    SELECT_OPEN + (if distinct then "DISTINCT" else "") + SELECT_GAP
  }

  function WhereClause(where: Option<string>): string
  {
    match where
    case None => ""
    case Some(w) => WHERE_OPEN + w
  }

  function FromClause(from: string): string
  {
    "\n        FROM\n            " + from + "\n        "
  }

  const SELECT_END: string := ";\n    "

  /** `generate_select_sql(from_table, cols, where, distinct)`. */
  function SelectSql(from: string, cols: Option<seq<string>>, where: Option<string>, distinct: bool): (r: string)
    ensures SelectHeader(distinct) + SelectBlock(cols) <= r
    ensures Unwrap(r, SelectHeader(distinct) + SelectBlock(cols) + FromClause(from), SELECT_END) == Some(WhereClause(where))
  {
    var pre := SelectHeader(distinct) + SelectBlock(cols);
    var header := pre + FromClause(from);
    UnwrapWrap(header, WhereClause(where), SELECT_END);
    PrefixOfPrefix(pre, header, header + WhereClause(where) + SELECT_END);
    header + WhereClause(where) + SELECT_END
  }

  /** `DISTINCT` sits right after `SELECT ` exactly when it was asked for. */
  lemma DistinctIff(from: string, cols: Option<seq<string>>, where: Option<string>, distinct: bool)
    ensures var q := SelectSql(from, cols, where, distinct);
            |q| >= 24 && (q[16..24] == "DISTINCT" <==> distinct)
  {
    var q := SelectSql(from, cols, where, distinct);
    var h := SelectHeader(distinct);
    SelectFrame();
    assert h <= q;
    if !distinct {
      assert h[16] == SELECT_GAP[0];
      assert q[16..24][0] == q[16] == h[16];
    } else {
      assert h[16..24] == "DISTINCT";
      assert q[16..24] == h[16..24];
    }
  }

  lemma SelectFrame()
    ensures |SELECT_OPEN| == 16 && |SELECT_GAP| > 0 && SELECT_GAP[0] == ' ' && "DISTINCT"[0] == 'D'
  {
  }

  /** The select list reads back as the columns asked for when no column
      name holds a comma. */
  lemma {:induction false} SelectListRoundTrip(cols: seq<string>)
    requires |cols| > 0
    requires forall i :: 0 <= i < |cols| ==> ',' !in cols[i]
    ensures Split(SelectBlock(Some(cols)), ", ") == cols
  {
    SplitJoin(cols, ", ");
  }

  /** The statement's `?` placeholders are exactly those of the WHERE
      clause when neither the table nor the columns hold a `?`: the
      parameters bound to it line up with the clause alone. */
  lemma {:induction false} SelectPlaceholders(from: string, cols: Option<seq<string>>, where: Option<string>, distinct: bool)
    requires '?' !in from
    requires cols.Some? ==> forall i :: 0 <= i < |cols.value| ==> '?' !in cols.value[i]
    ensures CountChar(SelectSql(from, cols, where, distinct), '?') ==
              (if where.Some? then CountChar(where.value, '?') else 0)
  {
    var block := SelectBlock(cols);
    if cols.Some? {
      JoinAvoids(cols.value, ", ", '?');
    }
    SelectTemplateQuestionFree(from, distinct);
    var a := SelectHeader(distinct);
    var b := FromClause(from);
    var w := WhereClause(where);
    CountCharAbsent(block, '?');
    CountCharAbsent(a, '?');
    CountCharAbsent(b, '?');
    CountCharAbsent(SELECT_END, '?');
    CountCharConcat(a, block, '?');
    CountCharConcat(a + block, b, '?');
    CountCharConcat(a + block + b, w, '?');
    CountCharConcat(a + block + b + w, SELECT_END, '?');
    if where.Some? {
      CountCharAbsent(WHERE_OPEN, '?');
      CountCharConcat(WHERE_OPEN, where.value, '?');
    }
  }

  /** The template text around the caller's pieces holds no `?`. */
  lemma SelectTemplateQuestionFree(from: string, distinct: bool)
    requires '?' !in from
    ensures '?' !in SelectHeader(distinct) && '?' !in FromClause(from)
    ensures '?' !in SELECT_END && '?' !in WHERE_OPEN
  {
    assert '?' !in SELECT_OPEN && '?' !in SELECT_GAP && '?' !in "DISTINCT";
  }
}
