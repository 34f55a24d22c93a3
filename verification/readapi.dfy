/** The read path of the current HTTP API (`GET /data/{collection}`):
    scope the compiled filter to the requested table, clamp the page size,
    extend the predicate with the pagination cursor, read one page of the
    production table in rowid order and shape the response.

    The filter compiler (JSON parsing, filter normalisation and
    validation, WHERE-clause building) and the database's reading of the
    compiled clause are parameters: the model fixes how the handler wires
    them together, not what they compute. */
module ReadApi {
  import opened Results
  import opened Seqs
  import opened SeqsFacts
  import opened Frames
  import opened Schemas
  import opened Store
  import opened Strings
  import opened TableKeys

  const DEFAULT_LIMIT: int := 1000
  const MAX_LIMIT: int := 5000

  /** A validated filter group: column, then operator, then operand. */
  type Group = map<string, map<string, Value>>

  /** The pieces the handler calls but does not define. `J` is a parsed
      JSON document. */
  datatype FilterCompiler<!J> = FilterCompiler(
    parseJson: string -> Option<J>,
    emptyDoc: J,
    normalize: J -> Result<(J, seq<J>), string>,
    validate: J -> Result<Group, string>,
    buildWhere: (Group, seq<Group>, Schema) -> Result<(string, seq<Value>), string>,
    evalWhere: (string, seq<Value>) -> Result<Row -> bool, string>,
    queryFails: (string, seq<Value>) -> bool)

  /** The query parameters of one request; `limit` is `None` when the
      client leaves it out. */
  datatype Request = Request(collection: string, tableName: string, filters: Option<string>,
                             limit: Option<int>, cursor: Option<int>)

  datatype Response =
    | Page(records: seq<Row>, description: Option<Value>, nextCursor: Option<int>)
    | Failure(status: int)

  /** A production row with the rowid SQLite gave it. */
  datatype PageRow = PageRow(rowid: int, cells: Row)

  /** `base["table_name"] = {"eq": table_name}`: whatever the caller said
      about `table_name` is replaced by equality with the requested table. */
  function ScopeToTable(base: Group, tableName: string): (r: Group)
    ensures "table_name" in r && r["table_name"] == map["eq" := Text(tableName)]
    ensures forall c :: c != "table_name" ==> (c in r <==> c in base)
    ensures forall c :: c in base && c != "table_name" ==> r[c] == base[c]
  {
    base["table_name" := map["eq" := Text(tableName)]]
  }

  /** Scoping twice to the same table is scoping once, and the last
      scope wins. */
  lemma ScopeIdempotent(base: Group, t1: string, t2: string)
    ensures ScopeToTable(ScopeToTable(base, t1), t2) == ScopeToTable(base, t2)
  {
  }

  /** The `limit` query parameter, defaulting to `DEFAULT_LIMIT`. */
  function RequestedLimit(req: Request): (r: int)
    ensures req.limit.None? ==> r == DEFAULT_LIMIT
    ensures req.limit.Some? ==> r == req.limit.value
  {
    match req.limit
    case None => DEFAULT_LIMIT
    case Some(l) => l
  }

  /** `min(int(limit), MAX_LIMIT)` once FastAPI has enforced `limit >= 1`. */
  function EffectiveLimit(limit: int): (r: int)
    requires limit >= 1
    ensures 1 <= r <= MAX_LIMIT
    ensures r <= limit && (r == limit || r == MAX_LIMIT)
  {
    if limit < MAX_LIMIT then limit else MAX_LIMIT
  }

  /** `json.loads(filters) if filters else {}`: a missing or empty filter
      string is the empty document. */
  function ParseFilters<J>(filters: Option<string>, c: FilterCompiler<J>): (r: Option<J>)
    ensures filters.None? ==> r == Some(c.emptyDoc)
    ensures filters == Some("") ==> r == Some(c.emptyDoc)
    ensures filters.Some? && filters.value != "" ==> r == c.parseJson(filters.value)
  {
    match filters
    case None => Some(c.emptyDoc)
    case Some(text) => if text == "" then Some(c.emptyDoc) else c.parseJson(text)
  }

  /** `[validate(g) for g in or_raw]`: the first failing group raises. */
  function ValidateAll<J>(groups: seq<J>, c: FilterCompiler<J>): (r: Result<seq<Group>, string>)
    ensures r.Ok? <==> forall i :: 0 <= i < |groups| ==> c.validate(groups[i]).Ok?
    ensures r.Ok? ==> |r.value| == |groups| && forall i :: 0 <= i < |groups| ==> r.value[i] == c.validate(groups[i]).value
  {
    if |groups| == 0 then Ok([])
    else match c.validate(groups[0])
      case Err(e) => Err(e)
      case Ok(g) =>
        assert forall i :: 1 <= i < |groups| ==> groups[i] == groups[1..][i - 1];
        match ValidateAll(groups[1..], c)
        case Err(e) => Err(e)
        case Ok(gs) => Ok([g] + gs)
  }

  /** Normalise the document into a base group and OR groups, then
      validate each. */
  function CompileGroups<J>(doc: J, c: FilterCompiler<J>): (r: Result<(Group, seq<Group>), string>)
    ensures r.Ok? <==>
              && c.normalize(doc).Ok?
              && c.validate(c.normalize(doc).value.0).Ok?
              && ValidateAll(c.normalize(doc).value.1, c).Ok?
  {
    match c.normalize(doc)
    case Err(e) => Err(e)
    case Ok((baseRaw, orRaw)) =>
      match c.validate(baseRaw)
      case Err(e) => Err(e)
      case Ok(base) =>
        match ValidateAll(orRaw, c)
        case Err(e) => Err(e)
        case Ok(ors) => Ok((base, ors))
  }

  /** The WHERE text and parameters sent to the database: with a cursor,
      `(<where>) AND (rowid > ?)` and the cursor bound after the filter's
      parameters; the page size is always bound last. */
  function CursorQuery(where: string, params: seq<Value>, cursor: Option<int>, limit: int): (r: (string, seq<Value>))
    ensures |r.1| == |params| + (if cursor.Some? then 2 else 1)
    ensures r.1[..|params|] == params
    ensures r.1[|r.1| - 1] == Num(limit as real)
    ensures cursor.Some? ==> r.1[|params|] == Num(cursor.value as real)
    ensures cursor.None? ==> r.0 == where
    ensures cursor.Some? ==> r.0 == "(" + where + ") AND (rowid > ?)"
  {
    match cursor
    case None => (where, params + [Num(limit as real)])
    case Some(k) =>
      var w := CURSOR_OPEN + where + CURSOR_CLOSE;
      assert w == "(" + where + ") AND (rowid > ?)";
      (w, params + [Num(k as real)] + [Num(limit as real)])
  }

  /** A filter clause whose placeholders match its parameters stays
      matched once the cursor is added; the extra parameter left over is
      the page size, bound to the `LIMIT ?` the select adds. */
  lemma {:induction false} CursorPlaceholders(where: string, params: seq<Value>, cursor: Option<int>, limit: int)
    requires CountChar(where, '?') == |params|
    ensures CountChar(CursorQuery(where, params, cursor, limit).0, '?') + 1 == |CursorQuery(where, params, cursor, limit).1|
  {
    if cursor.Some? {
      CursorLiteralCounts();
      CountCharConcat(CURSOR_OPEN, where, '?');
      CountCharConcat(CURSOR_OPEN + where, CURSOR_CLOSE, '?');
    }
  }

  const CURSOR_OPEN: string := "("
  const CURSOR_CLOSE: string := ") AND (rowid > ?)"

  lemma CursorLiteralCounts()
    ensures CountChar(CURSOR_OPEN, '?') == 0
    ensures CountChar(CURSOR_CLOSE, '?') == 1
  {
    CountCharAbsent(CURSOR_OPEN, '?');
    assert CURSOR_CLOSE == ") AND (rowid > " + ['?'] + ")";
    CountCharOnce(") AND (rowid > ", ")", '?');
  }

  /** The production rows numbered by SQLite's rowid: `CREATE TABLE AS`
      inserts them in order from 1. */
  function Numbered(rows: seq<Row>): (r: seq<PageRow>)
    ensures |r| == |rows|
    ensures forall i :: 0 <= i < |rows| ==> r[i] == PageRow(i + 1, rows[i])
  {
    seq(|rows|, i requires 0 <= i < |rows| => PageRow(i + 1, rows[i]))
  }

  predicate Ascending(ps: seq<PageRow>)
  {
    forall i, j :: 0 <= i < j < |ps| ==> ps[i].rowid < ps[j].rowid
  }

  predicate After(p: PageRow, cursor: Option<int>)
  {
    cursor.None? || p.rowid > cursor.value
  }

  function MatchPred(pred: Row -> bool, cursor: Option<int>): PageRow -> bool
  {
    (p: PageRow) => pred(p.cells) && After(p, cursor)
  }

  function AfterPred(cursor: Option<int>): PageRow -> bool
  {
    (p: PageRow) => After(p, cursor)
  }

  /** Every row the filter and the cursor let through, in rowid order. */
  function Matches(rows: seq<PageRow>, pred: Row -> bool, cursor: Option<int>): (r: seq<PageRow>)
    ensures forall i :: 0 <= i < |r| ==> r[i] in rows && pred(r[i].cells) && After(r[i], cursor)
    ensures forall i :: 0 <= i < |rows| && pred(rows[i].cells) && After(rows[i], cursor) ==> rows[i] in r
  {
    Filter(rows, MatchPred(pred, cursor))
  }

  /** Selecting from an ascending sequence keeps it ascending. */
  lemma {:induction false} FilterAscending(rows: seq<PageRow>, p: PageRow -> bool)
    requires Ascending(rows)
    ensures Ascending(Filter(rows, p))
  {
    if |rows| > 0 {
      var tail := rows[1..];
      assert Ascending(tail) by {
        assert forall i :: 0 <= i < |tail| ==> tail[i] == rows[i + 1];
      }
      FilterAscending(tail, p);
      if p(rows[0]) {
        FilterAscendingCons(rows, p);
      }
    }
  }

  lemma FilterAscendingCons(rows: seq<PageRow>, p: PageRow -> bool)
    requires |rows| > 0 && Ascending(rows) && Ascending(Filter(rows[1..], p)) && p(rows[0])
    ensures Ascending(Filter(rows, p))
  {
    FirstBelowRest(rows, p);
    ConsAscending(rows[0], Filter(rows[1..], p));
  }

  lemma ConsAscending(x: PageRow, rest: seq<PageRow>)
    requires Ascending(rest)
    requires forall j :: 0 <= j < |rest| ==> x.rowid < rest[j].rowid
    ensures Ascending([x] + rest)
  {
    var f := [x] + rest;
    forall i, j | 0 <= i < j < |f|
      ensures f[i].rowid < f[j].rowid
    {
      assert f[j] == rest[j - 1];
      if i > 0 {
        assert f[i] == rest[i - 1];
      }
    }
  }

  /** The head of an ascending sequence lies below everything selected
      from its tail. */
  lemma FirstBelowRest(rows: seq<PageRow>, p: PageRow -> bool)
    requires |rows| > 0 && Ascending(rows)
    ensures forall j :: 0 <= j < |Filter(rows[1..], p)| ==> rows[0].rowid < Filter(rows[1..], p)[j].rowid
  {
    var tail := rows[1..];
    var rest := Filter(tail, p);
    forall j | 0 <= j < |rest|
      ensures rows[0].rowid < rest[j].rowid
    {
      assert rest[j] in tail;
      var k :| 0 <= k < |tail| && tail[k] == rest[j];
      assert tail[k] == rows[k + 1];
    }
  }

  /** `ORDER BY rowid` with `rowid > cursor` and `LIMIT limit`. */
  function SelectPage(rows: seq<PageRow>, pred: Row -> bool, cursor: Option<int>, limit: int): (r: seq<PageRow>)
    requires limit >= 1
    ensures |r| <= limit
    ensures r <= Matches(rows, pred, cursor)
    ensures |r| < limit ==> r == Matches(rows, pred, cursor)
    ensures forall i :: 0 <= i < |r| ==> r[i] in rows && pred(r[i].cells) && After(r[i], cursor)
  {
    var m := Matches(rows, pred, cursor);
    if |m| <= limit then m else m[..limit]
  }

  lemma SelectPageAscending(rows: seq<PageRow>, pred: Row -> bool, cursor: Option<int>, limit: int)
    requires limit >= 1 && Ascending(rows)
    ensures Ascending(SelectPage(rows, pred, cursor, limit))
  {
    FilterAscending(rows, MatchPred(pred, cursor));
  }

  /** In an ascending sequence, the elements past the `k`-th rowid are
      exactly the suffix after it. */
  lemma {:induction false} AfterPrefix(m: seq<PageRow>, k: int)
    requires Ascending(m) && 0 < k <= |m|
    ensures Filter(m, AfterPred(Some(m[k - 1].rowid))) == m[k..]
  {
    var q := AfterPred(Some(m[k - 1].rowid));
    var tail := m[1..];
    assert forall i :: 0 <= i < |tail| ==> tail[i] == m[i + 1];
    assert !q(m[0]);
    if k == 1 {
      FilterKeepsAll(tail, q);
    } else {
      assert tail[k - 2] == m[k - 1];
      AfterPrefix(tail, k - 1);
      assert tail[k - 1..] == m[k..];
    }
  }

  /** Narrowing the cursor to a later rowid selects, among the rows
      matched before, those past the new cursor. */
  lemma {:induction false} MatchesNarrow(rows: seq<PageRow>, pred: Row -> bool, cursor: Option<int>, x: int)
    requires cursor.None? || x >= cursor.value
    ensures Filter(Matches(rows, pred, cursor), AfterPred(Some(x))) == Matches(rows, pred, Some(x))
  {
    var p1, q, p2 := MatchPred(pred, cursor), AfterPred(Some(x)), MatchPred(pred, Some(x));
    forall i | 0 <= i < |rows|
      ensures p2(rows[i]) == (p1(rows[i]) && q(rows[i]))
    {
      assert p1(rows[i]) == (pred(rows[i].cells) && After(rows[i], cursor));
      assert p2(rows[i]) == (pred(rows[i].cells) && After(rows[i], Some(x)));
      assert q(rows[i]) == After(rows[i], Some(x));
    }
    FilterConj(rows, p1, q, p2);
  }

  /** Pagination neither skips nor repeats a row: a full page followed by
      everything after its last rowid is everything after the cursor. */
  lemma {:induction false} PageContinues(rows: seq<PageRow>, pred: Row -> bool, cursor: Option<int>, limit: int)
    requires limit >= 1 && Ascending(rows)
    requires |SelectPage(rows, pred, cursor, limit)| == limit
    ensures var page := SelectPage(rows, pred, cursor, limit);
            Matches(rows, pred, cursor) == page + Matches(rows, pred, Some(page[limit - 1].rowid))
  {
    var m := Matches(rows, pred, cursor);
    var page := SelectPage(rows, pred, cursor, limit);
    assert page == m[..limit];
    SuffixAfterKth(rows, pred, cursor, limit);
    assert page[limit - 1] == m[limit - 1];
    assert m == m[..limit] + m[limit..];
  }

  /** The matches past the `k`-th one are the matches past its rowid. */
  lemma SuffixAfterKth(rows: seq<PageRow>, pred: Row -> bool, cursor: Option<int>, k: int)
    requires Ascending(rows) && 0 < k <= |Matches(rows, pred, cursor)|
    ensures var m := Matches(rows, pred, cursor);
            m[k..] == Matches(rows, pred, Some(m[k - 1].rowid))
  {
    var m := Matches(rows, pred, cursor);
    var x := m[k - 1].rowid;
    assert After(m[k - 1], cursor);
    MatchesNarrow(rows, pred, cursor, x);
    FilterAscending(rows, MatchPred(pred, cursor));
    AfterPrefix(m, k);
  }

  /** Columns never returned to the client. */
  const RESPONSE_DROPPED: set<string> := {"rowid", "ingest_id", "ingest_ts", "table_description"}

  /** The cells of a page, in order. */
  function Cells(page: seq<PageRow>): (r: seq<Row>)
    ensures |r| == |page|
    ensures forall i :: 0 <= i < |page| ==> r[i] == page[i].cells
  {
    seq(|page|, i requires 0 <= i < |page| => page[i].cells)
  }

  /** The columns a response keeps: not internal, and non-null on at
      least one row of the page. */
  function ResponseColumns(columns: seq<string>, cells: seq<Row>): (r: seq<string>)
    ensures forall c :: c in r <==> c in columns && c !in RESPONSE_DROPPED && HasNonNull(ColumnOf(cells, c))
  {
    NonEmptyColumns(Filter(columns, c => c !in RESPONSE_DROPPED), cells)
  }

  /** Shapes the page read from the database: the empty page short-cut,
      the `next_cursor` rule, the table description read from the first
      row (a `KeyError` outside any handler, hence 500 when the column is
      missing) and the column stripping. */
  function Respond(columns: seq<string>, page: seq<PageRow>, limit: int): (r: Response)
    requires limit >= 1
    ensures |page| == 0 ==> r == Page([], None, None)
    ensures |page| > 0 && "table_description" !in columns ==> r == Failure(500)
    ensures r.Failure? ==> r.status == 500
    ensures r.Page? ==>
              && |r.records| == |page|
              && (r.nextCursor.None? <==> |page| < limit)
              && (r.nextCursor.Some? ==> r.nextCursor.value == page[|page| - 1].rowid)
              && (|page| > 0 ==> r.description == Some(Get(page[0].cells, "table_description")))
    ensures r.Page? ==> forall i :: 0 <= i < |page| ==>
              forall c :: c in r.records[i] <==>
                c in columns && c !in RESPONSE_DROPPED && HasNonNull(ColumnOf(Cells(page), c))
    ensures r.Page? ==> forall i :: 0 <= i < |page| ==>
              forall c :: c in r.records[i] ==> r.records[i][c] == Get(page[i].cells, c)
  {
    if |page| == 0 then Page([], None, None)
    else if "table_description" !in columns then Failure(500)
    else
      var next := if |page| < limit then None else Some(page[|page| - 1].rowid);
      var keep := ResponseColumns(columns, Cells(page));
      Page(Project(Cells(page), keep), Some(Get(page[0].cells, "table_description")), next)
  }

  /** The WHERE builder's outcome, when the handler gets as far as calling
      it: the limit is at least 1, the table key is configured, the filter
      string parses, the filters compile and the collection has a schema. */
  function CompilesTo<J>(req: Request, config: EtlConfig, schemas: SchemaDict, c: FilterCompiler<J>)
    : Option<Result<(string, seq<Value>), string>>
  {
    if && RequestedLimit(req) >= 1
       && CheckInputs(req.collection, NameToTableKey(req.tableName, req.collection), config).Ok?
       && ParseFilters(req.filters, c).Some?
       && CompileGroups(ParseFilters(req.filters, c).value, c).Ok?
       && req.collection in schemas
    then
      var (base, ors) := CompileGroups(ParseFilters(req.filters, c).value, c).value;
      Some(c.buildWhere(ScopeToTable(base, req.tableName), ors, schemas[req.collection]))
    else None
  }

  /** The status the handler answers before it reaches the database, or
      the compiled WHERE clause and its parameters. */
  function Compile<J>(req: Request, config: EtlConfig, schemas: SchemaDict, c: FilterCompiler<J>)
    : (r: Result<(string, seq<Value>), int>)
    ensures RequestedLimit(req) < 1 ==> r == Err(422)
    ensures RequestedLimit(req) >= 1 && CheckInputs(req.collection, NameToTableKey(req.tableName, req.collection), config).Err? ==> r == Err(404)
    ensures RequestedLimit(req) >= 1 && CheckInputs(req.collection, NameToTableKey(req.tableName, req.collection), config).Ok? ==>
              && (ParseFilters(req.filters, c).None? ==> r == Err(400))
              && (ParseFilters(req.filters, c).Some? ==>
                    && (CompileGroups(ParseFilters(req.filters, c).value, c).Err? ==> r == Err(422))
                    && (CompileGroups(ParseFilters(req.filters, c).value, c).Ok? && req.collection !in schemas ==>
                          r == Err(422)))
    ensures r.Err? ==> r.error in {400, 404, 422}
    ensures r.Ok? <==> CompilesTo(req, config, schemas, c).Some? && CompilesTo(req, config, schemas, c).value.Ok?
    ensures CompilesTo(req, config, schemas, c).Some? && CompilesTo(req, config, schemas, c).value.Err? ==> r == Err(422)
    ensures r.Ok? ==>
              && RequestedLimit(req) >= 1
              && CheckInputs(req.collection, NameToTableKey(req.tableName, req.collection), config).Ok?
              && req.collection in schemas
              && exists base, ors ::
                   CompileGroups(ParseFilters(req.filters, c).value, c) == Ok((base, ors)) &&
                   c.buildWhere(ScopeToTable(base, req.tableName), ors, schemas[req.collection]) == Ok(r.value)
  {
    if RequestedLimit(req) < 1 then Err(422)
    else if CheckInputs(req.collection, NameToTableKey(req.tableName, req.collection), config).Err? then Err(404)
    else match ParseFilters(req.filters, c)
      case None => Err(400)
      case Some(doc) =>
        match CompileGroups(doc, c)
        case Err(_) => Err(422)
        case Ok((base, ors)) =>
          if req.collection !in schemas then Err(422)
          else match c.buildWhere(ScopeToTable(base, req.tableName), ors, schemas[req.collection])
            case Err(_) => Err(422)
            case Ok(q) => Ok(q)
  }

  /** `get_data(collection, table_name, filters, limit, cursor)`. */
  function GetData<J>(req: Request, config: EtlConfig, schemas: SchemaDict, db: Db, c: FilterCompiler<J>): (r: Response)
    ensures Compile(req, config, schemas, c).Err? ==> r == Failure(Compile(req, config, schemas, c).error)
    ensures Compile(req, config, schemas, c).Ok? && ProdTable(req.collection) !in db.tables ==> r == Failure(500)
    ensures Compile(req, config, schemas, c).Ok? && ProdTable(req.collection) in db.tables ==>
              var (where, params) := Compile(req, config, schemas, c).value;
              var sent := CursorQuery(where, params, req.cursor, EffectiveLimit(RequestedLimit(req)));
              && (c.queryFails(sent.0, sent.1) || c.evalWhere(where, params).Err? ==> r == Failure(500))
              && ((!c.queryFails(sent.0, sent.1) && c.evalWhere(where, params).Ok? &&
                   "table_description" in db.tables[ProdTable(req.collection)].columns) ==> r.Page?)
    ensures r.Failure? ==> r.status in {400, 404, 422, 500}
    ensures r.Page? ==> RequestedLimit(req) >= 1 && |r.records| <= EffectiveLimit(RequestedLimit(req))
    ensures r.Page? && req.limit.None? ==> |r.records| <= DEFAULT_LIMIT
    ensures r.Page? && r.nextCursor.Some? ==> |r.records| == EffectiveLimit(RequestedLimit(req))
    ensures r.Page? && r.nextCursor.Some? && req.cursor.Some? ==> r.nextCursor.value > req.cursor.value
  {
    match Compile(req, config, schemas, c)
    case Err(status) => Failure(status)
    case Ok((where, params)) =>
      var limit := EffectiveLimit(RequestedLimit(req));
      var (sent, bound) := CursorQuery(where, params, req.cursor, limit);
      if ProdTable(req.collection) !in db.tables || c.queryFails(sent, bound) then Failure(500)
      else match c.evalWhere(where, params)
        case Err(_) => Failure(500)
        case Ok(pred) =>
          var prod := db.tables[ProdTable(req.collection)];
          var page := SelectPage(Numbered(prod.rows), pred, req.cursor, limit);
          assert |page| > 0 ==> After(page[|page| - 1], req.cursor);
          Respond(prod.columns, page, limit)
  }
}
