/** The persisted state: the append-only ingest log, the named data tables
    (`<collection>_raw`, `<collection>_prod`) and the metadata table. */
module Store {
  import opened Frames

  /** Ingest timestamps are abstract keys compared by their total order. */
  type Timestamp = int

  /** One row of `_ingest_log`. */
  datatype LogRecord = LogRecord(id: nat, ts: Timestamp, collection: string, tableName: string,
                                 url: string, success: bool)

  /** One row of `_metadata`: statistics of one column of one staged table. */
  datatype MetaRow = MetaRow(collection: string, tableName: string, columnName: string,
                             nNonNulls: nat, nUnique: nat, dtype: string)

  /** `nextId` is the log's AUTOINCREMENT counter: the id the next log row
      receives. */
  datatype Db = Db(log: seq<LogRecord>, nextId: nat, tables: map<string, Frame>, metadata: seq<MetaRow>)

  /** AUTOINCREMENT hands out ever larger ids, all below the counter. */
  predicate Valid(db: Db)
  {
    && (forall i :: 0 <= i < |db.log| ==> db.log[i].id < db.nextId)
    && (forall i, j :: 0 <= i < j < |db.log| ==> db.log[i].id < db.log[j].id)
  }

  function RawTable(collection: string): string
  {
    collection + "_raw"
  }

  function ProdTable(collection: string): string
  {
    collection + "_prod"
  }

  lemma RawIsNotProd(a: string, b: string)
    ensures RawTable(a) != ProdTable(b)
  {
    var r, p := RawTable(a), ProdTable(b);
    assert r[|r| - 1] == 'w' && p[|p| - 1] == 'd';
  }
}
