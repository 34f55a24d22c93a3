/** The first HTTP read endpoint (`GET /data/{collection}`, equality
    filters only): every filter becomes ` AND <column> = ?`, the query
    reads the whole matching slice of the production table, and any
    failure at all is answered with status 500. */
module LegacyApi {
  import opened Results
  import opened Seqs
  import opened Frames
  import opened Store
  import opened Strings
  import opened SqlText
  import opened TableKeys

  /** The pieces the handler calls but does not define: JSON parsing,
      filter validation (which yields the filters in dictionary order)
      and the database's reading of a query. */
  datatype LegacyCompiler<!J> = LegacyCompiler(
    parseJson: string -> Option<J>,
    validate: J -> Result<seq<(string, Value)>, string>,
    evalQuery: (string, seq<Value>) -> Result<Row -> bool, string>)

  datatype LegacyResponse = Records(rows: seq<Row>) | Failure(status: int)

  const SCOPE: string := "table_name = ?"

  /** `" AND {k} = ?"` for every filter, in order. */
  function Conjuncts(filters: seq<(string, Value)>): string
  {
    if |filters| == 0 then "" else " AND " + filters[0].0 + " = ?" + Conjuncts(filters[1..])
  }

  /** The WHERE text and its parameters: the table scope first, then one
      equality per filter, each bound in the same order. */
  function EqualityClause(tableName: string, filters: seq<(string, Value)>): (r: (string, seq<Value>))
    ensures SCOPE <= r.0 && r.0[|SCOPE|..] == Conjuncts(filters)
    ensures |r.1| == |filters| + 1 && r.1[0] == Text(tableName)
    ensures forall i :: 0 <= i < |filters| ==> r.1[i + 1] == filters[i].1
  {
    (SCOPE + Conjuncts(filters), [Text(tableName)] + seq(|filters|, i requires 0 <= i < |filters| => filters[i].1))
  }

  /** `s[front:len(s) - back]`, or empty when `s` is too short. */
  function Between(s: string, front: nat, back: nat): string
  {
    if front + back <= |s| then s[front..|s| - back] else ""
  }

  /** The filter columns read back from a conjunct list: cut it at every
      placeholder and strip each piece's leading `" AND "` and trailing
      `" = "`. */
  function ConjunctColumns(s: string): seq<string>
  {
    var pieces := SplitAt(s, '?');
    seq(|pieces| - 1, i requires 0 <= i < |pieces| - 1 => Between(pieces[i], 5, 3))
  }

  /** Cutting at `c` after a `c`-free piece yields that piece first. */
  lemma SplitAtPiece(a: string, rest: string, c: char)
    requires c !in a
    ensures SplitAt(a + [c] + rest, c) == [a] + SplitAt(rest, c)
  {
    assert a + [c] + rest == a + ([c] + rest);
    SplitAtNoSep(a, [c] + rest, c);
    SplitAtSep(rest, c);
    assert a + "" == a;
  }

  /** A conjunct without its placeholder. */
  function Piece(k: string): string
  {
    " AND " + k + " = "
  }

  /** The placeholder-free pieces of the conjuncts, one per filter. */
  function Pieces(filters: seq<(string, Value)>): (r: seq<string>)
    ensures |r| == |filters|
    ensures forall i :: 0 <= i < |filters| ==> r[i] == Piece(filters[i].0)
  {
    seq(|filters|, i requires 0 <= i < |filters| => Piece(filters[i].0))
  }

  lemma PieceQuestionFree(k: string)
    requires '?' !in k
    ensures '?' !in Piece(k)
  {
    assert '?' !in " AND " && '?' !in " = ";
  }

  lemma ConjunctsCons(filters: seq<(string, Value)>)
    requires |filters| > 0
    ensures Conjuncts(filters) == Piece(filters[0].0) + ['?'] + Conjuncts(filters[1..])
  {
    assert " AND " + filters[0].0 + " = ?" == Piece(filters[0].0) + ['?'];
  }

  /** The pieces between placeholders are the conjuncts without their
      `?`, followed by the empty tail. */
  lemma {:induction false} ConjunctPieces(filters: seq<(string, Value)>)
    requires forall i :: 0 <= i < |filters| ==> '?' !in filters[i].0
    ensures SplitAt(Conjuncts(filters), '?') == Pieces(filters) + [""]
  {
    if |filters| == 0 {
      assert Conjuncts(filters) == "";
    } else {
      var rest := filters[1..];
      assert forall i :: 0 <= i < |rest| ==> rest[i] == filters[i + 1];
      ConjunctPieces(rest);
      PieceQuestionFree(filters[0].0);
      ConjunctsCons(filters);
      SplitAtPiece(Piece(filters[0].0), Conjuncts(rest), '?');
      assert Pieces(filters) == [Piece(filters[0].0)] + Pieces(rest);
    }
  }

  lemma StripConjunct(k: string)
    ensures Between(Piece(k), 5, 3) == k
  {
    var piece := Piece(k);
    assert |piece| == |k| + 8;
    assert piece[5..|piece| - 3] == k;
  }

  /** A text that cuts into the filters' pieces reads back as their
      columns. */
  lemma ColumnsOfPieces(s: string, filters: seq<(string, Value)>)
    requires SplitAt(s, '?') == Pieces(filters) + [""]
    ensures ConjunctColumns(s) == seq(|filters|, i requires 0 <= i < |filters| => filters[i].0)
  {
    var pieces := SplitAt(s, '?');
    var cols := ConjunctColumns(s);
    assert |cols| == |filters|;
    forall i | 0 <= i < |filters|
      ensures cols[i] == filters[i].0
    {
      assert pieces[i] == Pieces(filters)[i];
      StripConjunct(filters[i].0);
    }
  }

  /** Reading the conjuncts back yields the filter columns in order. */
  lemma ConjunctsRoundTrip(filters: seq<(string, Value)>)
    requires forall i :: 0 <= i < |filters| ==> '?' !in filters[i].0
    ensures ConjunctColumns(Conjuncts(filters)) == seq(|filters|, i requires 0 <= i < |filters| => filters[i].0)
  {
    ConjunctPieces(filters);
    ColumnsOfPieces(Conjuncts(filters), filters);
  }

  /** Each conjunct holds exactly one placeholder when no column name
      holds a `?`. */
  lemma {:induction false} ConjunctPlaceholders(filters: seq<(string, Value)>)
    requires forall i :: 0 <= i < |filters| ==> '?' !in filters[i].0
    ensures CountChar(Conjuncts(filters), '?') == |filters|
  {
    if |filters| > 0 {
      assert forall i :: 0 <= i < |filters| - 1 ==> filters[1..][i] == filters[i + 1];
      ConjunctPlaceholders(filters[1..]);
      var k := filters[0].0;
      assert '?' !in " AND " + k + " = " by {
        assert '?' !in " AND " && '?' !in " = ";
      }
      assert " = ?" == " = " + ['?'];
      assert " AND " + k + " = ?" == (" AND " + k + " = ") + ['?'] + "";
      CountCharOnce(" AND " + k + " = ", "", '?');
      CountCharConcat(" AND " + k + " = ?", Conjuncts(filters[1..]), '?');
    }
  }

  /** Placeholders and bound parameters always line up. */
  lemma EqualityPlaceholders(tableName: string, filters: seq<(string, Value)>)
    requires forall i :: 0 <= i < |filters| ==> '?' !in filters[i].0
    ensures CountChar(EqualityClause(tableName, filters).0, '?') == |EqualityClause(tableName, filters).1|
  {
    ConjunctPlaceholders(filters);
    assert SCOPE == "table_name = " + ['?'] + "";
    CountCharOnce("table_name = ", "", '?');
    CountCharConcat(SCOPE, Conjuncts(filters), '?');
  }

  /** The WHERE text and parameters the handler builds, or the failure
      that stops it first: filters are parsed and validated before any
      clause text is built from them. */
  function LegacyQuery<J>(tableName: string, filters: Option<string>, c: LegacyCompiler<J>)
    : (r: Result<(string, seq<Value>), string>)
    ensures filters.None? || filters == Some("") ==> r == Ok((SCOPE, [Text(tableName)]))
    ensures filters.Some? && filters.value != "" && c.parseJson(filters.value).None? ==> r.Err?
    ensures filters.Some? && filters.value != "" && c.parseJson(filters.value).Some? ==>
              (r.Ok? <==> c.validate(c.parseJson(filters.value).value).Ok?)
    ensures r.Ok? ==> |r.value.1| >= 1 && r.value.1[0] == Text(tableName) && SCOPE <= r.value.0
  {
    match filters
    case None => Ok((SCOPE, [Text(tableName)]))
    case Some(text) =>
      if text == "" then Ok((SCOPE, [Text(tableName)]))
      else match c.parseJson(text)
        case None => Err("invalid JSON")
        case Some(doc) =>
          match c.validate(doc)
          case Err(e) => Err(e)
          case Ok(fs) => Ok(EqualityClause(tableName, fs))
  }

  /** Without filters the clause is the table scope alone. */
  lemma NoFilterScope(tableName: string)
    ensures EqualityClause(tableName, []) == (SCOPE, [Text(tableName)])
  {
    assert Conjuncts([]) == "";
    assert SCOPE + "" == SCOPE;
    assert EqualityClause(tableName, []).1 == [Text(tableName)];
  }

  /** Columns `df.drop` removes before answering. */
  const LEGACY_DROPPED: set<string> := {"ingest_id", "ingest_ts"}

  /** `df.drop(columns=["ingest_id", "ingest_ts"])` raises `KeyError`
      unless both columns are there. */
  predicate HasBookkeeping(f: Frame)
  {
    "ingest_id" in f.columns && "ingest_ts" in f.columns
  }

  function NotDropped(c: string): bool
  {
    c !in LEGACY_DROPPED
  }

  /** The records of the matching rows after dropping the bookkeeping
      columns and every column that is null on all of them: one record per
      matching row, in order, each holding exactly the surviving columns
      with that row's cells. */
  function LegacyRecords(prod: Frame, pred: Row -> bool): (r: seq<Row>)
    ensures |r| == |Filter(prod.rows, pred)|
    ensures forall i, k :: 0 <= i < |r| ==>
              (k in r[i] <==>
                 && k in prod.columns
                 && k !in LEGACY_DROPPED
                 && exists j :: 0 <= j < |r| && Get(Filter(prod.rows, pred)[j], k) != Null)
    ensures forall i, k :: 0 <= i < |r| && k in r[i] ==> r[i][k] == Get(Filter(prod.rows, pred)[i], k)
  {
    var rows := Filter(prod.rows, pred);
    var cols := Filter(prod.columns, NotDropped);
    assert forall k :: k in cols <==> k in prod.columns && NotDropped(k);
    Project(rows, NonEmptyColumns(cols, rows))
  }

  /** `get_data(collection, table_name, filters)`. */
  function LegacyGetData<J>(collection: string, tableName: string, filters: Option<string>,
                            config: EtlConfig, db: Db, c: LegacyCompiler<J>): (r: LegacyResponse)
    ensures r.Failure? ==> r.status == 500
    ensures CheckInputs(collection, NameToTableKey(tableName, collection), config).Err? ==> r == Failure(500)
    ensures LegacyQuery(tableName, filters, c).Err? ==> r == Failure(500)
    ensures ProdTable(collection) !in db.tables ==> r == Failure(500)
    ensures ProdTable(collection) in db.tables && !HasBookkeeping(db.tables[ProdTable(collection)]) ==>
              r == Failure(500)
    ensures r.Records? ==>
              && CheckInputs(collection, NameToTableKey(tableName, collection), config).Ok?
              && LegacyQuery(tableName, filters, c).Ok?
              && ProdTable(collection) in db.tables
              && exists pred :: r.rows == LegacyRecords(db.tables[ProdTable(collection)], pred)
    ensures r.Records? <==>
              && CheckInputs(collection, NameToTableKey(tableName, collection), config).Ok?
              && LegacyQuery(tableName, filters, c).Ok?
              && ProdTable(collection) in db.tables
              && HasBookkeeping(db.tables[ProdTable(collection)])
              && c.evalQuery(SelectSql(ProdTable(collection), None, Some(LegacyQuery(tableName, filters, c).value.0), false),
                             LegacyQuery(tableName, filters, c).value.1).Ok?
    ensures r.Records? ==>
              r.rows == LegacyRecords(db.tables[ProdTable(collection)],
                          c.evalQuery(SelectSql(ProdTable(collection), None, Some(LegacyQuery(tableName, filters, c).value.0), false),
                                      LegacyQuery(tableName, filters, c).value.1).value)
  {
    if CheckInputs(collection, NameToTableKey(tableName, collection), config).Err? then Failure(500)
    else match LegacyQuery(tableName, filters, c)
      case Err(_) => Failure(500)
      case Ok((where, params)) =>
        var query := SelectSql(ProdTable(collection), None, Some(where), false);
        if ProdTable(collection) !in db.tables then Failure(500)
        else match c.evalQuery(query, params)
          case Err(_) => Failure(500)
          case Ok(pred) =>
            var prod := db.tables[ProdTable(collection)];
            if !HasBookkeeping(prod) then Failure(500)
            else Records(LegacyRecords(prod, pred))
  }

  /** Without filters, the database is asked for exactly the requested
      table's slice of the production table. */
  lemma NoFilterQuery<J>(tableName: string, c: LegacyCompiler<J>, collection: string)
    ensures LegacyQuery(tableName, None, c) == Ok((SCOPE, [Text(tableName)]))
    ensures Unwrap(SelectSql(ProdTable(collection), None, Some(SCOPE), false),
                   SelectHeader(false) + "*\n" + FromClause(collection + "_prod"), SELECT_END)
              == Some("WHERE \n\t" + SCOPE)
  {
  }
}
