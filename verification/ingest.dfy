/** `ingest_frame`: one ingest attempt. A log row is written first with the
    success flag down, the frame is tagged with that row's id and appended
    to the raw table, and only then is the flag raised. */
module Ingest {
  import opened Results
  import opened Seqs
  import opened Frames
  import opened Store

  /** How an ingest attempt fails.
      - `AppendFailed`: the append raised. `uncommitted` is the state at
        that moment: the log row is there with its flag down and no raw
        row has been written. Whether the log row survives is up to the
        surrounding transaction.
      - `UpdateFailed`: the append went through, and `to_sql` committed
        it together with the pending log row, but raising the flag raised.
        `committed` holds the appended rows and the log row with its flag
        down. */
  datatype IngestError = AppendFailed(uncommitted: Db) | UpdateFailed(committed: Db)

  datatype Ingested = Ingested(db: Db, id: nat)

  /** `df["ingest_id"] = ingest_id`. */
  function Tag(f: Frame, id: nat): (r: Frame)
    ensures |r.rows| == |f.rows|
    ensures forall i :: 0 <= i < |r.rows| ==> Get(r.rows[i], "ingest_id") == Num(id as real)
    ensures forall i, c :: 0 <= i < |r.rows| && c != "ingest_id" ==> Get(r.rows[i], c) == Get(f.rows[i], c)
    ensures "ingest_id" in r.columns
    ensures forall c :: c in f.columns ==> c in r.columns
  {
    Frame(if "ingest_id" in f.columns then f.columns else f.columns + ["ingest_id"],
          seq(|f.rows|, i requires 0 <= i < |f.rows| => f.rows[i]["ingest_id" := Num(id as real)]))
  }

  /** `df.to_sql(name, if_exists="append")`: creates the table from the
      frame when missing; otherwise a frame column the table lacks is an
      error, and columns the frame lacks are filled with nulls. */
  function Append(tables: map<string, Frame>, name: string, f: Frame): (r: Option<map<string, Frame>>)
    ensures r.Some? <==> name !in tables || forall c :: c in f.columns ==> c in tables[name].columns
    ensures r.Some? ==> r.value.Keys == tables.Keys + {name}
    ensures r.Some? ==> forall t :: t in tables && t != name ==> r.value[t] == tables[t]
    ensures r.Some? ==> r.value[name].rows == (if name in tables then tables[name].rows else []) + f.rows
  {
    if name !in tables then Some(tables[name := f])
    else if forall c :: c in f.columns ==> c in tables[name].columns then
      Some(tables[name := Frame(tables[name].columns, tables[name].rows + f.rows)])
    else None
  }

  /** `UPDATE _ingest_log SET success = 1 WHERE ingest_id = ?`: only
      success flags change, and a flag is up afterwards exactly when it was
      up before or its row carries the id. */
  function MarkSuccess(log: seq<LogRecord>, id: nat): (r: seq<LogRecord>)
    ensures |r| == |log|
    ensures forall i :: 0 <= i < |log| ==> r[i].(success := false) == log[i].(success := false)
    ensures forall i :: 0 <= i < |log| ==> (r[i].success <==> log[i].success || log[i].id == id)
  {
    seq(|log|, i requires 0 <= i < |log| => if log[i].id == id then log[i].(success := true) else log[i])
  }

  /** Raising the flag of a freshly appended record touches that record
      only: the earlier records carry other ids. */
  lemma MarkFreshRecord(log: seq<LogRecord>, rec: LogRecord)
    requires forall i :: 0 <= i < |log| ==> log[i].id != rec.id
    ensures MarkSuccess(log + [rec], rec.id) == log + [rec.(success := true)]
  {
    var r := MarkSuccess(log + [rec], rec.id);
    forall i | 0 <= i < |log| + 1
      ensures r[i] == (log + [rec.(success := true)])[i]
    {
      if i < |log| {
        assert (log + [rec])[i] == log[i];
      }
    }
  }

  /** `after` is `before` followed by the rows of `f`, each with the
      ingest id `id` and the frame row's other cells. */
  ghost predicate RowsAppended(before: seq<Row>, after: seq<Row>, f: Frame, id: nat)
  {
    && |after| == |before| + |f.rows|
    && after[..|before|] == before
    && forall i :: 0 <= i < |f.rows| ==>
         Get(after[|before| + i], "ingest_id") == Num(id as real) &&
         forall c :: c != "ingest_id" ==> Get(after[|before| + i], c) == Get(f.rows[i], c)
  }

  /** Appending the tagged frame puts its rows after the old ones, each
      with the id and the frame row's other cells. */
  lemma AppendedRows(tables: map<string, Frame>, name: string, f: Frame, id: nat)
    requires Append(tables, name, Tag(f, id)).Some?
    ensures var t := Append(tables, name, Tag(f, id)).value;
            && name in t
            && RowsAppended(if name in tables then tables[name].rows else [], t[name].rows, f, id)
  {
    var t := Append(tables, name, Tag(f, id)).value;
    var before := if name in tables then tables[name].rows else [];
    assert t[name].rows == before + Tag(f, id).rows;
    forall i | 0 <= i < |f.rows|
      ensures t[name].rows[|before| + i] == Tag(f, id).rows[i]
    {
    }
  }

  /** A record with the counter's id extends a valid log, whatever the
      tables hold. */
  lemma LogGrows(db: Db, rec: LogRecord, tables: map<string, Frame>)
    requires Valid(db) && rec.id == db.nextId
    ensures forall i :: 0 <= i < |db.log| ==> db.log[i].id != rec.id
    ensures Valid(Db(db.log + [rec], db.nextId + 1, tables, db.metadata))
  {
  }

  /** `ingest_frame(df, to_table, table_name, data_collection, url, ts)`.
      `appendFails` stands for any failure of the store while appending,
      `updateFails` for a failure of the `UPDATE` that raises the flag. */
  function IngestFrame(db: Db, f: Frame, toTable: string, tableName: string, collection: string,
                       url: string, ts: Timestamp, appendFails: bool, updateFails: bool): (r: Result<Ingested, IngestError>)
    requires Valid(db)
    ensures r.Err? <==> appendFails || Append(db.tables, toTable, Tag(f, db.nextId)).None? || updateFails
    ensures r.Err? && r.error.AppendFailed? <==> appendFails || Append(db.tables, toTable, Tag(f, db.nextId)).None?
    ensures r.Ok? ==>
              && r.value.id == db.nextId
              && (forall i :: 0 <= i < |db.log| ==> db.log[i].id != r.value.id)
              && r.value.db.log == db.log + [LogRecord(r.value.id, ts, collection, tableName, url, true)]
              && r.value.db.nextId == db.nextId + 1
              && r.value.db.metadata == db.metadata
              && Valid(r.value.db)
    ensures r.Ok? ==>
              && toTable in r.value.db.tables
              && RowsAppended(if toTable in db.tables then db.tables[toTable].rows else [],
                              r.value.db.tables[toTable].rows, f, r.value.id)
    ensures r.Ok? ==> r.value.db.tables.Keys == db.tables.Keys + {toTable}
    ensures r.Ok? ==> forall t :: t in db.tables && t != toTable ==>
              t in r.value.db.tables && r.value.db.tables[t] == db.tables[t]
    ensures r.Err? && r.error.AppendFailed? ==>
              && r.error.uncommitted.log == db.log + [LogRecord(db.nextId, ts, collection, tableName, url, false)]
              && r.error.uncommitted.tables == db.tables
              && forall i :: 0 <= i < |r.error.uncommitted.log| && r.error.uncommitted.log[i].id == db.nextId ==>
                   !r.error.uncommitted.log[i].success
    ensures r.Err? && r.error.UpdateFailed? ==>
              && r.error.committed.log == db.log + [LogRecord(db.nextId, ts, collection, tableName, url, false)]
              && r.error.committed.nextId == db.nextId + 1
              && r.error.committed.metadata == db.metadata
              && r.error.committed.tables == Append(db.tables, toTable, Tag(f, db.nextId)).value
              && Valid(r.error.committed)
  {
    var id := db.nextId;
    var pending := db.(log := db.log + [LogRecord(id, ts, collection, tableName, url, false)], nextId := id + 1);
    var appended := Append(db.tables, toTable, Tag(f, id));
    if appendFails || appended.None? then Err(AppendFailed(pending))
    else
      var done := LogRecord(id, ts, collection, tableName, url, true);
      if updateFails then
        LogGrows(db, LogRecord(id, ts, collection, tableName, url, false), appended.value);
        Err(UpdateFailed(Db(pending.log, id + 1, appended.value, db.metadata)))
      else
        var log := MarkSuccess(pending.log, id);
        MarkFreshRecord(db.log, LogRecord(id, ts, collection, tableName, url, false));
        assert log == db.log + [done];
        LogGrows(db, done, appended.value);
        AppendedRows(db.tables, toTable, f, id);
        Ok(Ingested(Db(log, id + 1, appended.value, db.metadata), id))
  }
}
