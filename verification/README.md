# queens — a Dafny model of the ingest, staging, metadata and read path

QUEENS loads published UK energy statistics (DUKES and similar data
collections) into SQLite. Each data collection has a raw table
(`<collection>_raw`), into which every scraped table is appended as a tagged
batch, and an ingest log (`_ingest_log`) that records each batch with its
timestamp, table name, URL and success flag. Staging rebuilds the
production table (`<collection>_prod`): for each table name it keeps the
newest successful batch at or before a cutoff. A metadata table
(`_metadata`) describes the columns of each table. An HTTP API reads
production rows back, either with equality filters (the first endpoint)
or with typed operators and rowid cursor pagination (the current
endpoint).

This project models that core as pure Dafny functions over immutable
values and proves properties of it:

- `results.dfy`: `Option`, `Result`, and a map that stops at the first
  error.
- `strings.dfy`: the string operations the source relies on (`join`,
  `replace`, `split`, `strip`, `upper`), and placeholder counting.
- `seqs.dfy`: filtering and de-duplication of sequences.
- `settings.dfy`: `DTYPES`, `VALID_OPS` and `OP_SQL`.
- `schemas.dfy`: the per-collection schema dictionary (ordered columns,
  SQL type, optional `nullable`).
- `frames.dfy`: data frames as column lists plus rows, where a row is a
  map and a missing cell reads as null; null counts, `dropna(axis=1,
  how="all")` and projection.
- `store.dfy`: the database: named tables, the ingest log, the metadata
  rows and the next ingest id.
- `ingest.dfy`: `ingest_frame`.
- `staging.dfy`: `raw_to_prod`.
- `validation.dfy`: `validate_schema`. The copies in `etl/table_specs.py`
  and `etl/validation.py` are identical, so they are modelled once.
- `metadata.dfy`: `insert_metadata` and `load_column_info`.
- `sqltext.dfy`: the SQL text builders `generate_create_table_sql`,
  `generate_create_log_sql` and `generate_select_sql`.
- `tablekeys.dfy`: `table_to_chapter`, `check_inputs` and
  `table_key_to_name`.
- `readapi.dfy`: the current `get_data`, with pagination.
- `legacyapi.dfy`: the first `get_data`.

Some pieces are called by this code but not defined in it:
- the JSON parser;
- the filter normaliser, validator and WHERE builder;
- pandas' numeric parsing and string conversion;
- the database's reading of a WHERE clause.

Each is a function-valued parameter. A database read is modelled as
`Filter` with the predicate the database derives from the query.

Where the code and its documentation disagree, the model follows the
code:
- `check_inputs` promises to accept a key that is "found" in the
  configuration. The loop accepts only a key that every chapter lists
  (see Findings).
- `raw_to_prod` does not check the success flag of a row's own log
  record, only that of the record that sets the latest timestamp.
- `validate_schema` checks that a REAL column is not entirely null even
  when the frame is empty.

## Model

| member | source | states |
|---|---|---|
| Settings.TypeTables | queens/settings.py:57-70 | `DTYPES` covers exactly TEXT, INTEGER, REAL and DATETIME. DATETIME gets no cast and takes no query operator. Every type with operators is a `DTYPES` type. |
| Settings.NumericOperators | queens/settings.py:66-70 | INTEGER and REAL take exactly the six comparisons, and only TEXT takes `like`. |
| Settings.TextOperators | queens/settings.py:66-70 | TEXT takes exactly `eq`, `neq` and `like`. |
| Settings.OperatorFragments | queens/settings.py:66-78 | Every operator valid for some type has an SQL fragment. Each fragment is a comparison symbol followed by exactly one placeholder. |
| Settings.FragmentSymbol | queens/settings.py:73-78 | Recovers, for each operator, the comparison symbol that its fragment places before the placeholder. |
| Frames.NonEmptyColumns | queens/api/app.py:152 | `dropna(axis=1, how="all")` keeps exactly the listed columns that have a non-null value on some row. |
| Ingest.Tag | core/read_write.py:303 | Every row carries the new ingest id and keeps all its other cells. The row count is unchanged. |
| Ingest.Append | core/read_write.py:306 | Appending succeeds exactly when the table is new or already has every column of the frame. New rows follow the existing ones, and other tables are untouched. |
| Ingest.MarkSuccess | core/read_write.py:309-316 | The log keeps its length and every field other than the success flag. A record's flag is set afterwards exactly when it was set before or the record has the given id. |
| Ingest.MarkFreshRecord | core/read_write.py:309-316 | Marking a record just appended with a fresh id leaves the earlier log alone and sets that record's flag. |
| Ingest.IngestFrame | core/read_write.py:254-321 | Ingestion fails exactly when the append or the success update fails. On success: the log gains one successful record with a fresh id; the target table gains the frame's rows after its old rows, each tagged with that id; the table names are the old ones plus the target; every other table and the metadata are unchanged. A failing append leaves an uncommitted store at the raise: it holds the record with success 0 and unchanged tables, and the transaction rolls that record back. A failing update leaves the store `to_sql` committed: the appended tables and the record with success 0. |
| Staging.LatestTs | core/read_write.py:332-345 | Absent exactly when no successful record of the collection and table lies at or before the cutoff. Otherwise it is the largest such timestamp, and some record attains it. |
| StagingFacts.LatestTsIsLatest | core/read_write.py:332-345 | The grouped `MAX(ingest_ts)` equals `t` exactly when `t` is an eligible timestamp that bounds every eligible one. |
| Staging.RawToProd | core/read_write.py:324-375 | Fails exactly when the raw table is missing, and the failure carries the store after the DROP: no production table, all else unchanged. On success only the production table is replaced; its columns are `ingest_ts` followed by the raw columns. A row is in it exactly when it is a raw row joined with a log record of its ingest id that carries its table's latest eligible timestamp. |
| StagingFacts.JoinRowAtMostOne | core/read_write.py:357-360 | Log ids are increasing, so a raw row joins at most one log record. It yields one production row when it joins one, and none otherwise. |
| StagingFacts.StagedOnePerRow | core/read_write.py:347-360 | The staged rows number exactly the raw rows that join a selected log record. |
| StagingFacts.ProdOnePerJoiningRow | core/read_write.py:324-375 | In a valid store the production table has one row per raw row that joins a selected log record. |
| StagingFacts.ProdRowsAreLatest | core/read_write.py:347-360 | Every production row is a raw row stamped with the timestamp of a log record that has the row's ingest id and is the latest eligible for its table. |
| StagingFacts.TiedBatchesAllKept | core/read_write.py:332-360 | Two batches of one table logged at the same latest timestamp are both kept. |
| StagingFacts.UnflaggedBatchStaged | core/read_write.py:347-360 | A batch whose own log record has success 0 is still staged when a successful record of the same table shares its timestamp. |
| StagingFacts.StageForgetsOldProd | core/read_write.py:369-373 | The new production table depends only on the raw table and the log, not on any earlier production table. |
| StagingFacts.StageIdempotent | core/read_write.py:324-375 | Staging twice with the same cutoff gives the same database as staging once. |
| StagingFacts.StagedRowsAppend | core/read_write.py:347-360 | Staging distributes over concatenation of the raw rows. |
| StagingFacts.TwoBatchesStaged | core/read_write.py:332-360 | For two successful batches of one table, production is empty before the first timestamp. Between the two it is the first batch, row for row, stamped with its timestamp. From the second timestamp on it is the second batch, stamped the same way. |
| StagingFacts.TwoVersionsStaged | core/read_write.py:254-375 | Ingest two versions of a table at `t1 < t2` into an empty store, then stage. Depending on where the cutoff falls, production is empty, or it is one of the two versions in order. Each row then has that ingest's id and timestamp and the frame row's other cells. |
| Validation.ValidateSchema | etl/table_specs.py:46-103 | The duplicate-index, unknown-collection and index-clash errors come first, in that order. On success the columns are the index levels, the data columns and `table_name`; every column is in the schema; each cell is the declared cast of the staged value. |
| Validation.CastColumns | etl/table_specs.py:66-101 | The column loop succeeds exactly when every column check does, and reports the failing check's error. |
| Validation.CheckColumns | etl/table_specs.py:67-101 | The loop stops at the first failing column and reports its error. Otherwise it yields every column's cast values. |
| Validation.CheckColumn | etl/table_specs.py:69-101 | A column is accepted only when the schema declares it, and then yields its values cast to the declared type. |
| ValidationFacts.CheckColumnAccepts | etl/table_specs.py:67-101 | A column check succeeds exactly when the column meets the column rule: declared with a `DTYPES` type; `nullable` present; REAL parses somewhere; no null when not nullable. |
| ValidationFacts.ValidateAcceptsIff | etl/table_specs.py:53-101 | Validation succeeds exactly when three things hold: the index has no duplicates, the collection is known, and resetting the index clashes with no column; and every staged column meets the column rule. |
| ValidationFacts.FirstFailingColumnDecides | etl/table_specs.py:67-101 | A failing validation reports the error of some column, and every column before it is accepted. |
| ValidationFacts.AcceptedColumn | etl/table_specs.py:67-101 | Every column of a validated frame meets the column rule. |
| ValidationFacts.RealColumnParse | etl/table_specs.py:75-84 | A validated REAL column holds the coerced numbers (unparsable cells become null) and has at least one non-null value. |
| ValidationFacts.NonNullableHoldsNoNull | etl/table_specs.py:97-101 | A validated column declared not nullable holds no null. |
| ValidationFacts.NullableKeyRequired | etl/table_specs.py:72-73 | A schema entry without `nullable` makes its column fail. |
| ValidationFacts.TextColumnNeverNull | etl/table_specs.py:90-91 | `astype(str)` turns every cell into text, null included. A TEXT column with `nullable` set is always accepted. |
| ValidationFacts.SparseIntegerAccepted | etl/table_specs.py:86-89 | A nullable INTEGER column is accepted even when no cell parses, and is then all null. Unlike REAL, INTEGER has no all-null check. |
| ValidationFacts.UnparsableRealRejected | etl/table_specs.py:75-84 | A REAL column in which nothing parses is rejected as unparsable. |
| ValidationFacts.DatetimePassesThrough | etl/table_specs.py:93-101 | DATETIME values are left as they are. The column is accepted exactly when it is nullable or holds no null. |
| ValidationFacts.TableNameAttached | etl/table_specs.py:64 | Every validated row carries the requested table name as text. |
| Metadata.Slice | core/read_write.py:450-458 | Exactly the production rows whose `table_name` is the requested one. |
| Metadata.DescribeAll | core/read_write.py:477-482 | Succeeds exactly when every described column is in the collection's schema. Each row describes its column with the schema's type. An unknown collection fails. |
| Metadata.InsertMetadata | core/read_write.py:432-494 | Fails with a missing-table error exactly when the production table is absent, and with an empty-slice error when the slice is empty. It succeeds exactly when the table exists, the slice is non-empty and the collection's schema declares every described column. On success the new rows describe the slice's kept columns, and the metadata store keeps every other table's rows followed by the new rows. |
| MetadataFacts.MetadataBounds | core/read_write.py:464-482 | Each row belongs to the requested table and names a production column other than the bookkeeping and id columns. Its counts satisfy 1 <= n_unique <= n_non_nulls <= the slice size. |
| MetadataFacts.InsertMetadataScoped | core/read_write.py:485-492 | Other tables' metadata, the log and the data tables are untouched. |
| MetadataFacts.InsertedRowsMatch | core/read_write.py:485-492 | After the delete and append, the table's metadata is exactly the inserted rows. |
| MetadataFacts.InsertedTypesConsistent | core/read_write.py:481-482 | Inserted rows that name the same column give it the same type. |
| Metadata.Matching | core/read_write.py:503-512 | Exactly the metadata rows of the requested collection and table. |
| Metadata.TypesOfLastWins | core/read_write.py:518 | When several rows name a column, the dictionary holds the type of the last of them. |
| Metadata.LoadColumnInfo | core/read_write.py:497-525 | Fails with no-metadata exactly when the table has no metadata rows. Succeeds exactly when every recorded type is a `DTYPES` key. The type map covers exactly the table's columns, and the cast map gives each column the `DTYPES` entry of its type. |
| MetadataFacts.LoadReadsBack | core/read_write.py:497-525 | Take metadata rows that agree on each column's type. Loading them succeeds exactly when there is at least one and every type is a `DTYPES` key. It then returns each column with its recorded type. |
| MetadataFacts.InsertThenLoad | core/read_write.py:432-525 | After insertion, loading fails with no-metadata exactly when nothing was inserted. It succeeds exactly when something was inserted and every inserted type is a `DTYPES` key; an unknown type such as `BLOB` fails. On success every inserted column comes back with its inserted type. |
| SqlText.CreateTableSql | src/sql_utils.py:8-43 | Fails exactly for an unknown prefix. The statement is the `CREATE TABLE IF NOT EXISTS [prefix_env]` header, then the column definitions joined by the separator, then the footer. |
| SqlText.ColumnDefForm | src/sql_utils.py:31-34 | A definition is `[name] type`, followed by ` NOT NULL` only when `nullable` is false. `strip` removes the blank left for nullable columns. |
| SqlText.NotNullIff | src/sql_utils.py:32-34 | A definition declares NOT NULL exactly when the schema says `nullable` false. A missing `nullable` counts as nullable. |
| SqlText.CreateTableRoundTrip | src/sql_utils.py:25-41 | Splitting the generated statement between header and footer recovers the column definitions in schema order. |
| SqlText.CreateLogSql | src/sql_utils.py:46-57 | The log statement is its header, the six log column definitions joined by the separator, then the footer. |
| SqlText.CreateLogRoundTrip | src/sql_utils.py:46-57 | Splitting the log statement recovers the six column definitions in order. |
| SqlText.LogConstraints | src/sql_utils.py:49-54 | `ingest_id` is an autoincrement primary key. Timestamp, collection and table name are NOT NULL; URL and success are not. |
| SqlText.SelectSql | src/sql_utils.py:208-239 | The query is the SELECT header, the select list, the FROM clause, the optional `WHERE` clause and the terminator. The WHERE part can be read back between them. |
| SqlText.DistinctIff | src/sql_utils.py:229-232 | The keyword DISTINCT stands at its place in the query exactly when distinct was asked for. |
| SqlText.SelectListRoundTrip | src/sql_utils.py:227 | Splitting the select list on `", "` recovers the requested columns. |
| SqlText.SelectPlaceholders | src/sql_utils.py:227-237 | The query's placeholders are exactly those of the WHERE text. |
| TableKeys.TableKeyToName | utils.py:79-95 | The resulting name holds no underscore. |
| TableKeys.KeyToName | utils.py:91-93 | The key `collection_n` reads back as `n` with underscores turned into dots. |
| TableKeys.NameKeyRoundTrip | utils.py:79-95 | A dotted name filed under its key reads back as itself. |
| TableKeys.KeyToNameExample | utils.py:81 | `dukes_1_2_3` names table `1.2.3`. |
| TableKeys.TableToChapter | utils.py:26-53 | Fails on an empty number. Otherwise the chapter is `chapter_` plus a leading digit, or `chapter_1` for I and J. Any other leading character has no chapter rule. |
| TableKeys.ChapterFirstCharOnly | utils.py:44-53 | Numbers that normalise to the same first character get the same chapter. |
| TableKeys.KeyAndNameSameChapter | utils.py:28-47 | A key and its dotted name land in the same chapter, the one named by their first digit. |
| TableKeys.CheckInputsAsWritten | utils.py:57-76 | An unknown collection fails. A key is accepted exactly when every chapter of the collection lists it. |
| TableKeys.CheckInputsAsWrittenRejectsListedKey | utils.py:73-76 | A key listed in its own chapter is rejected once the collection has a second chapter. |
| TableKeys.CheckInputs | utils.py:57-71 | An unknown collection fails. A key is accepted exactly when some chapter of the collection lists it. |
| TableKeys.CheckInputsAgainstAsWritten | utils.py:57-76 | The corrected check accepts exactly the configured keys and everything the written loop accepts. On a one-chapter collection the two agree. |
| ReadApi.RequestedLimit | queens/api/app.py:46 | A missing `limit` is 1000. A given one is used as it is. |
| ReadApi.EffectiveLimit | queens/api/app.py:46-99 | The page size lies between 1 and 5000, and equals the requested limit unless clamped to 5000. |
| ReadApi.ValidateAll | queens/api/app.py:80-81 | The OR-groups validate exactly when each one does, and their validated forms are kept in order. |
| ReadApi.CompileGroups | queens/api/app.py:76-84 | Filter compilation succeeds exactly when normalisation, the base group's validation and every OR-group's validation succeed. |
| ReadApi.ScopeToTable | queens/api/app.py:87 | The requested table replaces any caller filter on `table_name`. Every other filter is kept. |
| ReadApi.ScopeIdempotent | queens/api/app.py:87 | Scoping again to another table only replaces the table. |
| ReadApi.Compile | queens/api/app.py:56-97 | Errors in the handler's order: 422 for a limit below 1, then 404 when the configuration lists neither the collection nor the requested table's key, then 400 for bad JSON, then 422 for invalid filters, an unknown schema or a failing WHERE builder. It succeeds exactly when every step through the WHERE builder succeeds, and the query is then the builder's output for the validated filters scoped to the table. |
| ReadApi.CursorQuery | queens/api/app.py:102-119 | Without a cursor the WHERE text is unchanged. With one it is exactly `(<where>) AND (rowid > ?)`, and the cursor is bound after the filter parameters. The limit is always bound last. |
| ReadApi.CursorPlaceholders | queens/api/app.py:102-119 | When the filter text's placeholders match its parameters, the final query's placeholders match its parameters, the limit's included. |
| ReadApi.Matches | queens/api/app.py:102-116 | The rows the query selects are exactly the production rows that satisfy the filters and lie after the cursor. |
| ReadApi.SelectPage | queens/api/app.py:102-116 | A page is a prefix of the matching rows, at most `limit` long. It holds all of them when it is shorter than the limit. |
| ReadApi.SelectPageAscending | queens/api/app.py:110-116 | Pages come in increasing rowid order. |
| ReadApi.PageContinues | queens/api/app.py:102-140 | A full page followed by the matches after its last rowid gives all the matches. Following `next_cursor` loses and repeats no row. |
| ReadApi.ResponseColumns | queens/api/app.py:146-152 | The response keeps exactly the columns that are not internal and are non-null on some row of the page. |
| ReadApi.Respond | queens/api/app.py:133-157 | An empty page gives no data and no cursor. A missing description column gives 500. Otherwise there is one record per row with the kept columns and their values. `next_cursor` is the last rowid exactly when the page is full. |
| ReadApi.GetData | queens/api/app.py:34-157 | Every compile error is passed through. A missing production table, a failing query or a failing evaluation is 500. When all of these go through and the description column exists, a page is returned. A page never exceeds the clamped limit, nor 1000 rows when no limit is given. A returned cursor means a full page and lies past the incoming cursor. |
| LegacyApi.EqualityClause | api/app.py:41-62 | The WHERE text is the table scope followed by one ` AND <column> = ?` per filter, in order. The table name is bound first, then each filter value in order. |
| LegacyApi.ConjunctPieces | api/app.py:60-62 | Cutting the conjuncts at each `?` gives one ` AND <column> = ` piece per filter, then an empty tail, as long as no column name holds a `?`. |
| LegacyApi.ConjunctsRoundTrip | api/app.py:60-62 | The filter columns can be read back from the conjuncts, in order, as long as no column name holds a `?`. |
| LegacyApi.EqualityPlaceholders | api/app.py:42-62 | The clause's placeholders match its parameters, as long as no column name holds a `?`. |
| LegacyApi.LegacyQuery | api/app.py:41-62 | No or empty filters give the table scope alone. Bad JSON fails. Otherwise the query succeeds exactly when the filters validate. |
| LegacyApi.NoFilterScope | api/app.py:41-47 | Without filters the clause is the table scope alone. |
| LegacyApi.NoFilterQuery | api/app.py:41-67 | Without filters, the query reads the requested table's slice of the production table. |
| LegacyApi.LegacyRecords | api/app.py:64-78 | There is one record per matching production row, in order. A record's keys are exactly the production columns other than `ingest_id` and `ingest_ts` that are non-null on some matching row. Each value is that row's cell. |
| LegacyApi.LegacyGetData | api/app.py:14-83 | Every failure is a 500. Records come back exactly when these all succeed: the collection and table key check, the filters, the production table's presence and bookkeeping columns, and the database's reading of the query. They are then the records of the rows that reading selects. |

## Left out

- Connections and sessions are left out: file paths, SQLite connections and `with` blocks. Commit and rollback are not modelled either. A failed append returns the store as it stood when the error was raised. A failed success update returns what `to_sql`, which commits its own transaction, had committed.
- Logging and printing are left out, including the warning in `ingest_frame` when the target table does not mention the collection.
- Timestamps are integers ordered like the ISO strings the source stores.
- Numbers are uninterpreted reals. No arithmetic is done on them.
- pandas' numeric parsing and `astype(str)` are parameters of the model.
- `upper` and `isnumeric` are ASCII-only. `isspace` covers the characters Python's `str.strip` removes.
- The JSON parser is a parameter, and so are the filter normaliser, `validate_query_filters` and `build_where_clause`. These are defined in modules that are not part of this model. So is the database's reading of a WHERE clause.
- The `queens.core.utils` and `src.utils` modules that the two handlers import are not part of this model. The handlers call `check_inputs` with a `table_name=` keyword that the `utils.py` signature does not have, and the current handler catches only `NameError`. The model gives the documented behaviour: an unknown collection or table is 404 in the current handler and 500 in the first. The configuration lists table keys such as `dukes_1_2`, while the handlers receive dotted names such as `1.2`. So both handlers check the key that the dotted name files under (`collection_` followed by the name with its dots turned into underscores).
- The current handler calls `generate_select_sql` with `order_by` and `limit` arguments, which the `src/sql_utils.py` version does not take. The model gives the page its meaning instead: rows in rowid order, at most `limit` of them.
- `src/sql_utils.py` also has older copies of `execute_sql`, `ingest_frame` and `raw_to_prod`. They are left out because `core/read_write.py` holds the versions modelled here.
- Workbook reading, export, web scraping, configuration loading and `get_metadata` are outside the modelled core.
- The staging query has no `ORDER BY`. The model keeps the production rows in raw-table order, raw row by raw row, and the rowids the current handler pages by follow that order. SQLite does not guarantee this.
- Frames have uniquely named columns and rows as maps. The model does not represent duplicate column names or an unnamed index level.
- TableKeys.TableKeyToName: the contract says only that the name has no underscore. What the name means is stated by `KeyToName` and `NameKeyRoundTrip`.
- ReadApi.GetData: the contract bounds the page and the cursor but does not repeat which rows the page holds. That is stated by `SelectPage`, `Matches` and `Respond`, which the handler composes. It also does not say that a query matching no row still gets an (empty) page when the description column is missing. `Respond` states that case.

## Findings

| source | as written | input that shows it | evidently intended | confidence | as-written member | corrected member |
|---|---|---|---|---|---|---|
| utils.py:73-76 | The loop raises as soon as one chapter of the collection does not list the key, so a key must be listed in every chapter. | Configuration `{"dukes": {"chapter_1": {"dukes_1_1"}, "chapter_2": {"dukes_2_1"}}}` with key `dukes_1_1`: the key is configured, but `chapter_2` lacks it. | Accept the key when some chapter lists it, as the docstring says ("found"). | not executed | TableKeys.CheckInputsAsWrittenRejectsListedKey | TableKeys.CheckInputs |
