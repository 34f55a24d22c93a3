/** `raw_to_prod`: rebuilds `<collection>_prod` from the ingest log and the
    raw table. For every table name the latest successful ingest of the
    collection at or before the cutoff is selected; every raw row whose own
    log record carries that table name and that timestamp is copied,
    prefixed with the timestamp. */
module Staging {
  import opened Results
  import opened Frames
  import opened Store

  /** The `CREATE TABLE ... AS` fails for want of a raw table. The
      `DROP TABLE` before it has already run outside any transaction, so
      the store it leaves behind is carried along. */
  datatype StageError = NoRawTable(dropped: Db)

  /** The log rows the `current_ts` subquery aggregates for `table`. */
  predicate Eligible(rec: LogRecord, collection: string, cutoff: Timestamp, table: string)
  {
    rec.collection == collection && rec.success && rec.ts <= cutoff && rec.tableName == table
  }

  /** `MAX(ingest_ts)` over the eligible rows of `table`; `None` when the
      table has no such row and hence no entry in `current_ts`. */
  function LatestTs(log: seq<LogRecord>, collection: string, cutoff: Timestamp, table: string)
    : (r: Option<Timestamp>)
    ensures r.None? <==> forall i :: 0 <= i < |log| ==> !Eligible(log[i], collection, cutoff, table)
    ensures r.Some? ==> exists i :: 0 <= i < |log| && Eligible(log[i], collection, cutoff, table) && log[i].ts == r.value
    ensures r.Some? ==> forall i :: 0 <= i < |log| && Eligible(log[i], collection, cutoff, table) ==> log[i].ts <= r.value
  {
    if |log| == 0 then None
    else
      var rest := LatestTs(log[1..], collection, cutoff, table);
      assert forall i :: 1 <= i < |log| ==> log[i] == log[1..][i - 1];
      if !Eligible(log[0], collection, cutoff, table) then rest
      else match rest
        case None => Some(log[0].ts)
        case Some(m) => Some(if log[0].ts < m then m else log[0].ts)
  }

  /** The join condition between a raw row and a log row: the ids agree and
      the log row's (table name, timestamp) is the selected pair. Neither the
      success flag nor the collection of that log row is looked at again. */
  predicate Joins(d: Row, rec: LogRecord, log: seq<LogRecord>, collection: string, cutoff: Timestamp)
  {
    Get(d, "ingest_id") == Num(rec.id as real) && LatestTs(log, collection, cutoff, rec.tableName) == Some(rec.ts)
  }

  /** `SELECT log.ingest_ts, data.*`. */
  function ProdRow(d: Row, rec: LogRecord): Row
  {
    d["ingest_ts" := Time(rec.ts)]
  }

  /** The production rows one raw row yields against the log rows `recs`. */
  function JoinRow(d: Row, recs: seq<LogRecord>, log: seq<LogRecord>, collection: string, cutoff: Timestamp)
    : (r: seq<Row>)
    ensures forall p :: p in r <==> exists j :: 0 <= j < |recs| && Joins(d, recs[j], log, collection, cutoff) && p == ProdRow(d, recs[j])
  {
    if |recs| == 0 then []
    else
      var rest := JoinRow(d, recs[1..], log, collection, cutoff);
      assert forall j :: 1 <= j < |recs| ==> recs[j] == recs[1..][j - 1];
      (if Joins(d, recs[0], log, collection, cutoff) then [ProdRow(d, recs[0])] else []) + rest
  }

  /** The staging query's result, raw row by raw row. */
  function StagedRows(log: seq<LogRecord>, raw: seq<Row>, collection: string, cutoff: Timestamp)
    : (r: seq<Row>)
    ensures forall p :: p in r <==>
              exists i, j :: 0 <= i < |raw| && 0 <= j < |log| &&
                Joins(raw[i], log[j], log, collection, cutoff) && p == ProdRow(raw[i], log[j])
  {
    if |raw| == 0 then []
    else
      var rest := StagedRows(log, raw[1..], collection, cutoff);
      assert forall i :: 1 <= i < |raw| ==> raw[i] == raw[1..][i - 1];
      JoinRow(raw[0], log, log, collection, cutoff) + rest
  }

  /** `raw_to_prod(table_prefix, cutoff)`: drops the production table and
      recreates it from the log and the raw table alone. */
  function RawToProd(db: Db, prefix: string, cutoff: Timestamp): (r: Result<Db, StageError>)
    ensures r.Err? <==> RawTable(prefix) !in db.tables
    ensures r.Err? ==>
              && r.error.dropped.log == db.log
              && r.error.dropped.nextId == db.nextId
              && r.error.dropped.metadata == db.metadata
              && r.error.dropped.tables.Keys == db.tables.Keys - {ProdTable(prefix)}
              && (forall t :: t in db.tables && t != ProdTable(prefix) ==> r.error.dropped.tables[t] == db.tables[t])
    ensures r.Ok? ==>
              && r.value.log == db.log
              && r.value.nextId == db.nextId
              && r.value.metadata == db.metadata
              && r.value.tables.Keys == db.tables.Keys + {ProdTable(prefix)}
              && (forall t :: t in db.tables && t != ProdTable(prefix) ==> r.value.tables[t] == db.tables[t])
              && r.value.tables[ProdTable(prefix)].columns == ["ingest_ts"] + db.tables[RawTable(prefix)].columns
              && (forall p :: p in r.value.tables[ProdTable(prefix)].rows <==>
                    exists i, j :: 0 <= i < |db.tables[RawTable(prefix)].rows| && 0 <= j < |db.log| &&
                      var d := db.tables[RawTable(prefix)].rows[i];
                      Joins(d, db.log[j], db.log, prefix, cutoff) && p == ProdRow(d, db.log[j]))
  {
    if RawTable(prefix) !in db.tables then Err(NoRawTable(db.(tables := db.tables - {ProdTable(prefix)})))
    else
      var raw := db.tables[RawTable(prefix)];
      var prod := Frame(["ingest_ts"] + raw.columns, StagedRows(db.log, raw.rows, prefix, cutoff));
      Ok(db.(tables := db.tables[ProdTable(prefix) := prod]))
  }
}

/** Properties of staging: what the production table holds, that it does
    not depend on its previous contents, and how successive ingests of one
    table surface through it. */
module StagingFacts {
  import opened Results
  import opened Seqs
  import opened Frames
  import opened Store
  import opened Staging
  import Ingest

  /** `t` is the latest timestamp among the eligible log rows of `table`. */
  predicate IsLatest(log: seq<LogRecord>, collection: string, cutoff: Timestamp, table: string, t: Timestamp)
  {
    && (exists k :: 0 <= k < |log| && Eligible(log[k], collection, cutoff, table) && log[k].ts == t)
    && forall k :: 0 <= k < |log| && Eligible(log[k], collection, cutoff, table) ==> log[k].ts <= t
  }

  /** The recursive maximum agrees with its declarative reading. */
  lemma LatestTsIsLatest(log: seq<LogRecord>, collection: string, cutoff: Timestamp, table: string, t: Timestamp)
    ensures LatestTs(log, collection, cutoff, table) == Some(t) <==> IsLatest(log, collection, cutoff, table, t)
  {
    var m := LatestTs(log, collection, cutoff, table);
    if IsLatest(log, collection, cutoff, table, t) {
      var k :| 0 <= k < |log| && Eligible(log[k], collection, cutoff, table) && log[k].ts == t;
      assert m.Some?;
      var j :| 0 <= j < |log| && Eligible(log[j], collection, cutoff, table) && log[j].ts == m.value;
      assert log[j].ts <= t && log[k].ts <= m.value;
    } else if m.Some? {
      assert IsLatest(log, collection, cutoff, table, m.value);
    }
  }

  /** Every production row is a raw row tagged with a log row that carries
      the latest eligible timestamp of its table: no eligible ingest of the
      same table is newer. */
  lemma ProdRowsAreLatest(db: Db, prefix: string, cutoff: Timestamp, p: Row)
    requires RawToProd(db, prefix, cutoff).Ok?
    requires p in RawToProd(db, prefix, cutoff).value.tables[ProdTable(prefix)].rows
    ensures var raw := db.tables[RawTable(prefix)].rows;
            exists i, j ::
              && 0 <= i < |raw| && 0 <= j < |db.log|
              && Get(raw[i], "ingest_id") == Num(db.log[j].id as real)
              && p == raw[i]["ingest_ts" := Time(db.log[j].ts)]
              && IsLatest(db.log, prefix, cutoff, db.log[j].tableName, db.log[j].ts)
  {
    var raw := db.tables[RawTable(prefix)].rows;
    var i, j :| 0 <= i < |raw| && 0 <= j < |db.log| &&
                Joins(raw[i], db.log[j], db.log, prefix, cutoff) && p == ProdRow(raw[i], db.log[j]);
    LatestTsIsLatest(db.log, prefix, cutoff, db.log[j].tableName, db.log[j].ts);
  }

  /** Batches tied on the latest timestamp are all kept. */
  lemma TiedBatchesAllKept(db: Db, prefix: string, cutoff: Timestamp, d1: Row, d2: Row, j1: nat, j2: nat)
    requires RawTable(prefix) in db.tables
    requires d1 in db.tables[RawTable(prefix)].rows && d2 in db.tables[RawTable(prefix)].rows
    requires j1 < |db.log| && j2 < |db.log|
    requires Eligible(db.log[j1], prefix, cutoff, db.log[j1].tableName)
    requires Eligible(db.log[j2], prefix, cutoff, db.log[j1].tableName)
    requires db.log[j1].ts == db.log[j2].ts
    requires forall k :: 0 <= k < |db.log| && Eligible(db.log[k], prefix, cutoff, db.log[j1].tableName) ==>
               db.log[k].ts <= db.log[j1].ts
    requires Get(d1, "ingest_id") == Num(db.log[j1].id as real) && Get(d2, "ingest_id") == Num(db.log[j2].id as real)
    ensures var prod := RawToProd(db, prefix, cutoff).value.tables[ProdTable(prefix)].rows;
            ProdRow(d1, db.log[j1]) in prod && ProdRow(d2, db.log[j2]) in prod
  {
    var raw := db.tables[RawTable(prefix)].rows;
    var i1 :| 0 <= i1 < |raw| && raw[i1] == d1;
    var i2 :| 0 <= i2 < |raw| && raw[i2] == d2;
    var m := LatestTs(db.log, prefix, cutoff, db.log[j1].tableName);
    assert m == Some(db.log[j1].ts);
    assert Joins(raw[i1], db.log[j1], db.log, prefix, cutoff);
    assert Joins(raw[i2], db.log[j2], db.log, prefix, cutoff);
  }

  /** The join does not re-check the success flag of a row's own log row:
      rows of an ingest whose flag is down are staged when a successful
      ingest of the same table has the same timestamp. */
  lemma UnflaggedBatchStaged()
    ensures var ok := LogRecord(1, 5, "dukes", "1.1", "u", true);
            var failed := LogRecord(2, 5, "dukes", "1.1", "u", false);
            var d := map["ingest_id" := Num(2.0), "year" := Num(2020.0)];
            StagedRows([ok, failed], [d], "dukes", 7) == [ProdRow(d, failed)]
  {
    var ok := LogRecord(1, 5, "dukes", "1.1", "u", true);
    var failed := LogRecord(2, 5, "dukes", "1.1", "u", false);
    var d := map["ingest_id" := Num(2.0), "year" := Num(2020.0)];
    assert LatestTs([failed], "dukes", 7, "1.1") == None;
    assert LatestTs([ok, failed], "dukes", 7, "1.1") == Some(5);
    assert !Joins(d, ok, [ok, failed], "dukes", 7);
    assert Joins(d, failed, [ok, failed], "dukes", 7);
    assert [ok, failed][1..] == [failed];
    assert JoinRow(d, [failed], [ok, failed], "dukes", 7) == [ProdRow(d, failed)];
    assert JoinRow(d, [ok, failed], [ok, failed], "dukes", 7) == [ProdRow(d, failed)];
    assert StagedRows([ok, failed], [d][1..], "dukes", 7) == [];
  }

  /** Log ids strictly increase along the log, as AUTOINCREMENT gives them. */
  predicate IdsAscending(recs: seq<LogRecord>)
  {
    forall i, j :: 0 <= i < j < |recs| ==> recs[i].id < recs[j].id
  }

  /** The raw row `d` joins some log row of `recs`. */
  predicate JoinsSome(d: Row, recs: seq<LogRecord>, log: seq<LogRecord>, collection: string, cutoff: Timestamp)
  {
    exists j :: 0 <= j < |recs| && Joins(d, recs[j], log, collection, cutoff)
  }

  /** `ingest_id` is the log's primary key, so a raw row joins at most one
      log row and yields at most one production row. */
  lemma {:induction false} JoinRowAtMostOne(d: Row, recs: seq<LogRecord>, log: seq<LogRecord>, collection: string, cutoff: Timestamp)
    requires IdsAscending(recs)
    ensures |JoinRow(d, recs, log, collection, cutoff)| == if JoinsSome(d, recs, log, collection, cutoff) then 1 else 0
  {
    if |recs| > 0 {
      var rest := recs[1..];
      assert forall j :: 0 <= j < |rest| ==> rest[j] == recs[j + 1];
      JoinRowAtMostOne(d, rest, log, collection, cutoff);
      if Joins(d, recs[0], log, collection, cutoff) {
        forall j | 0 <= j < |rest|
          ensures !Joins(d, rest[j], log, collection, cutoff)
        {
          assert recs[0].id < rest[j].id;
          assert Num(recs[0].id as real) != Num(rest[j].id as real);
        }
      } else if JoinsSome(d, recs, log, collection, cutoff) {
        var j :| 0 <= j < |recs| && Joins(d, recs[j], log, collection, cutoff);
        assert Joins(d, rest[j - 1], log, collection, cutoff);
      }
    }
  }

  /** One production row per raw row that joins, and none for the rest. */
  lemma {:induction false} StagedOnePerRow(log: seq<LogRecord>, raw: seq<Row>, collection: string, cutoff: Timestamp)
    requires IdsAscending(log)
    ensures |StagedRows(log, raw, collection, cutoff)| ==
            |Filter(raw, d => JoinsSome(d, log, log, collection, cutoff))|
  {
    if |raw| > 0 {
      assert forall i :: 1 <= i < |raw| ==> raw[i] == raw[1..][i - 1];
      StagedOnePerRow(log, raw[1..], collection, cutoff);
      JoinRowAtMostOne(raw[0], log, log, collection, cutoff);
    }
  }

  /** In a valid store the production table holds exactly as many rows as
      the raw table has rows that join the selected log rows. */
  lemma ProdOnePerJoiningRow(db: Db, prefix: string, cutoff: Timestamp)
    requires Valid(db) && RawTable(prefix) in db.tables
    ensures |RawToProd(db, prefix, cutoff).value.tables[ProdTable(prefix)].rows| ==
            |Filter(db.tables[RawTable(prefix)].rows, d => JoinsSome(d, db.log, db.log, prefix, cutoff))|
  {
    StagedOnePerRow(db.log, db.tables[RawTable(prefix)].rows, prefix, cutoff);
  }

  /** The production table is rebuilt from the log and the raw table only:
      whatever it held before is irrelevant. */
  lemma StageForgetsOldProd(db1: Db, db2: Db, prefix: string, cutoff: Timestamp)
    requires db1.log == db2.log
    requires RawTable(prefix) in db1.tables && RawTable(prefix) in db2.tables
    requires db1.tables[RawTable(prefix)] == db2.tables[RawTable(prefix)]
    ensures RawToProd(db1, prefix, cutoff).value.tables[ProdTable(prefix)] ==
            RawToProd(db2, prefix, cutoff).value.tables[ProdTable(prefix)]
  {
  }

  /** Staging twice with the same cutoff leaves the same database as
      staging once. */
  lemma StageIdempotent(db: Db, prefix: string, cutoff: Timestamp)
    requires RawToProd(db, prefix, cutoff).Ok?
    ensures RawToProd(RawToProd(db, prefix, cutoff).value, prefix, cutoff) == RawToProd(db, prefix, cutoff)
  {
    var once := RawToProd(db, prefix, cutoff).value;
    RawIsNotProd(prefix, prefix);
    assert once.tables[RawTable(prefix)] == db.tables[RawTable(prefix)];
    var twice := RawToProd(once, prefix, cutoff).value;
    assert twice.tables == once.tables;
  }

  lemma {:induction false} StagedRowsAppend(log: seq<LogRecord>, a: seq<Row>, b: seq<Row>, collection: string, cutoff: Timestamp)
    ensures StagedRows(log, a + b, collection, cutoff) == StagedRows(log, a, collection, cutoff) + StagedRows(log, b, collection, cutoff)
  {
    if |a| == 0 {
      assert a + b == b;
    } else {
      assert (a + b)[0] == a[0];
      assert (a + b)[1..] == a[1..] + b;
      StagedRowsAppend(log, a[1..], b, collection, cutoff);
    }
  }

  /** The raw rows `rows` each stamped with the timestamp of `rec`. */
  function Stamped(rows: seq<Row>, rec: LogRecord): (r: seq<Row>)
    ensures |r| == |rows|
    ensures forall i :: 0 <= i < |rows| ==> Get(r[i], "ingest_ts") == Time(rec.ts)
    ensures forall i, col :: 0 <= i < |rows| && col != "ingest_ts" ==> Get(r[i], col) == Get(rows[i], col)
  {
    seq(|rows|, i requires 0 <= i < |rows| => ProdRow(rows[i], rec))
  }

  /** When no raw row joins, the production table is empty. */
  lemma {:induction false} StagedRowsNone(log: seq<LogRecord>, raw: seq<Row>, collection: string, cutoff: Timestamp)
    requires forall i :: 0 <= i < |raw| ==> JoinRow(raw[i], log, log, collection, cutoff) == []
    ensures StagedRows(log, raw, collection, cutoff) == []
  {
    if |raw| > 0 {
      assert forall i :: 1 <= i < |raw| ==> raw[i] == raw[1..][i - 1];
      StagedRowsNone(log, raw[1..], collection, cutoff);
    }
  }

  /** When every raw row joins exactly the log row `rec`, the production
      table is the raw table stamped with `rec`'s timestamp, in order. */
  lemma {:induction false} StagedRowsEach(log: seq<LogRecord>, raw: seq<Row>, collection: string, cutoff: Timestamp, rec: LogRecord)
    requires forall i :: 0 <= i < |raw| ==> JoinRow(raw[i], log, log, collection, cutoff) == [ProdRow(raw[i], rec)]
    ensures StagedRows(log, raw, collection, cutoff) == Stamped(raw, rec)
  {
    if |raw| > 0 {
      var tail := raw[1..];
      assert forall i :: 0 <= i < |tail| ==> tail[i] == raw[i + 1];
      StagedRowsEach(log, tail, collection, cutoff, rec);
      assert Stamped(raw, rec) == [ProdRow(raw[0], rec)] + Stamped(tail, rec);
    }
  }

  /** Two successful batches of one table, `a` tagged with the first log
      row and `b` with the second, newer one: the cutoff decides which
      batch is staged, and it is staged whole, in order, stamped with its
      own timestamp. */
  lemma TwoBatchesStaged(rec1: LogRecord, rec2: LogRecord, a: seq<Row>, b: seq<Row>, c: string, cutoff: Timestamp)
    requires rec1.id != rec2.id && rec1.ts < rec2.ts && rec1.tableName == rec2.tableName
    requires rec1.success && rec2.success && rec1.collection == c && rec2.collection == c
    requires forall i :: 0 <= i < |a| ==> Get(a[i], "ingest_id") == Num(rec1.id as real)
    requires forall i :: 0 <= i < |b| ==> Get(b[i], "ingest_id") == Num(rec2.id as real)
    ensures StagedRows([rec1, rec2], a + b, c, cutoff) ==
              if cutoff < rec1.ts then [] else if cutoff < rec2.ts then Stamped(a, rec1) else Stamped(b, rec2)
  {
    var log := [rec1, rec2];
    assert log[1..] == [rec2] && [rec2][1..] == [];
    assert LatestTs([rec2], c, cutoff, rec1.tableName) == (if rec2.ts <= cutoff then Some(rec2.ts) else None);
    var latest := LatestTs(log, c, cutoff, rec1.tableName);
    assert latest == (if cutoff < rec1.ts then None else if cutoff < rec2.ts then Some(rec1.ts) else Some(rec2.ts));
    var aJoins := rec1.ts <= cutoff < rec2.ts;
    forall i | 0 <= i < |a|
      ensures JoinRow(a[i], log, log, c, cutoff) == if aJoins then [ProdRow(a[i], rec1)] else []
    {
      assert !Joins(a[i], rec2, log, c, cutoff);
      assert JoinRow(a[i], [rec2], log, c, cutoff) == [];
    }
    forall i | 0 <= i < |b|
      ensures JoinRow(b[i], log, log, c, cutoff) == if rec2.ts <= cutoff then [ProdRow(b[i], rec2)] else []
    {
      assert !Joins(b[i], rec1, log, c, cutoff);
      assert Joins(b[i], rec2, log, c, cutoff) <==> rec2.ts <= cutoff;
      assert JoinRow(b[i], [rec2], log, c, cutoff) ==
             (if rec2.ts <= cutoff then [ProdRow(b[i], rec2)] else []) + JoinRow(b[i], [], log, c, cutoff);
    }
    StagedRowsAppend(log, a, b, c, cutoff);
    if aJoins {
      StagedRowsEach(log, a, c, cutoff, rec1);
      StagedRowsNone(log, b, c, cutoff);
    } else {
      StagedRowsNone(log, a, c, cutoff);
      if rec2.ts <= cutoff {
        StagedRowsEach(log, b, c, cutoff, rec2);
      } else {
        StagedRowsNone(log, b, c, cutoff);
      }
    }
  }

  /** `prod` is the frame `f` as ingested under `id` and staged at `t`:
      row for row, the ingest's id and timestamp followed by the frame's
      own cells. */
  ghost predicate StagedVersion(prod: seq<Row>, f: Frame, id: nat, t: Timestamp)
  {
    && |prod| == |f.rows|
    && forall i :: 0 <= i < |prod| ==>
         && Get(prod[i], "ingest_ts") == Time(t)
         && Get(prod[i], "ingest_id") == Num(id as real)
         && forall col :: col != "ingest_ts" && col != "ingest_id" ==> Get(prod[i], col) == Get(f.rows[i], col)
  }

  /** Stamping raw rows that carry `f`'s cells under `rec`'s id stages
      `f` as that ingest. */
  lemma StampedVersion(raw: seq<Row>, f: Frame, rec: LogRecord)
    requires |raw| == |f.rows|
    requires forall i :: 0 <= i < |raw| ==> Get(raw[i], "ingest_id") == Num(rec.id as real)
    requires forall i, col :: 0 <= i < |raw| && col != "ingest_id" ==> Get(raw[i], col) == Get(f.rows[i], col)
    ensures StagedVersion(Stamped(raw, rec), f, rec.id, rec.ts)
  {
  }

  /** Two ingests of one table into a fresh collection, at `t1 < t2`: a
      cutoff before `t1` stages nothing, one in `[t1, t2)` stages exactly
      the first version, and one at or after `t2` exactly the second. */
  lemma TwoVersionsStaged(db0: Db, f1: Frame, f2: Frame, c: string, table: string, url: string,
                          t1: Timestamp, t2: Timestamp, cutoff: Timestamp)
    requires Valid(db0) && db0.log == [] && RawTable(c) !in db0.tables
    requires t1 < t2
    requires Ingest.IngestFrame(db0, f1, RawTable(c), table, c, url, t1, false, false).Ok?
    requires Ingest.IngestFrame(Ingest.IngestFrame(db0, f1, RawTable(c), table, c, url, t1, false, false).value.db,
                                f2, RawTable(c), table, c, url, t2, false, false).Ok?
    ensures var db1 := Ingest.IngestFrame(db0, f1, RawTable(c), table, c, url, t1, false, false).value.db;
            var db2 := Ingest.IngestFrame(db1, f2, RawTable(c), table, c, url, t2, false, false).value.db;
            var prod := RawToProd(db2, c, cutoff).value.tables[ProdTable(c)].rows;
            && (cutoff < t1 ==> prod == [])
            && (t1 <= cutoff < t2 ==> StagedVersion(prod, f1, db0.nextId, t1))
            && (t2 <= cutoff ==> StagedVersion(prod, f2, db0.nextId + 1, t2))
  {
    var r1 := Ingest.IngestFrame(db0, f1, RawTable(c), table, c, url, t1, false, false).value;
    var r2 := Ingest.IngestFrame(r1.db, f2, RawTable(c), table, c, url, t2, false, false).value;
    var db2 := r2.db;
    var rec1 := LogRecord(r1.id, t1, c, table, url, true);
    var rec2 := LogRecord(r2.id, t2, c, table, url, true);
    assert db2.log == [rec1, rec2];
    var raw := db2.tables[RawTable(c)].rows;
    var n1 := |f1.rows|;
    assert r1.db.tables[RawTable(c)].rows[..0] == [];
    assert |r1.db.tables[RawTable(c)].rows| == n1;
    var a, b := raw[..n1], raw[n1..];
    assert raw == a + b;
    forall i | 0 <= i < |a|
      ensures Get(a[i], "ingest_id") == Num(r1.id as real)
      ensures forall col :: col != "ingest_id" ==> Get(a[i], col) == Get(f1.rows[i], col)
    {
      assert a[i] == r1.db.tables[RawTable(c)].rows[0 + i];
    }
    forall i | 0 <= i < |b|
      ensures Get(b[i], "ingest_id") == Num(r2.id as real)
      ensures forall col :: col != "ingest_id" ==> Get(b[i], col) == Get(f2.rows[i], col)
    {
      assert b[i] == raw[n1 + i];
    }
    TwoBatchesStaged(rec1, rec2, a, b, c, cutoff);
    if t1 <= cutoff < t2 {
      StampedVersion(a, f1, rec1);
    } else if t2 <= cutoff {
      StampedVersion(b, f2, rec2);
    }
  }
}
