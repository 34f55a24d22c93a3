/** Cells, rows and data frames. A row maps column names to cells; a
    column a row does not mention reads as `Null`, the way SQL and pandas
    fill a column missing from a row. */
module Frames {
  import opened Seqs

  /** A cell. `Time` carries an abstract, totally ordered timestamp. */
  datatype Value = Null | Num(n: real) | Text(s: string) | Time(t: int)

  type Row = map<string, Value>

  function Get(r: Row, c: string): Value
  {
    if c in r then r[c] else Null
  }

  /** A data frame: an ordered list of columns and its rows. */
  datatype Frame = Frame(columns: seq<string>, rows: seq<Row>)

  function ColumnOf(rows: seq<Row>, c: string): (r: seq<Value>)
    ensures |r| == |rows|
    ensures forall i :: 0 <= i < |rows| ==> r[i] == Get(rows[i], c)
  {
    seq(|rows|, i requires 0 <= i < |rows| => Get(rows[i], c))
  }

  /** `series.notna().sum()`. */
  function NonNullCount(vs: seq<Value>): nat
  {
    if |vs| == 0 then 0
    else (if vs[0] != Null then 1 else 0) + NonNullCount(vs[1..])
  }

  /** The values `series.nunique()` counts. */
  function NonNullValues(vs: seq<Value>): set<Value>
  {
    set i | 0 <= i < |vs| && vs[i] != Null :: vs[i]
  }

  predicate HasNonNull(vs: seq<Value>)
  {
    exists i :: 0 <= i < |vs| && vs[i] != Null
  }

  lemma {:induction false} NonNullCountBounds(vs: seq<Value>)
    ensures NonNullCount(vs) <= |vs|
    ensures NonNullCount(vs) == |vs| <==> forall i :: 0 <= i < |vs| ==> vs[i] != Null
    ensures NonNullCount(vs) > 0 <==> HasNonNull(vs)
  {
    if |vs| > 0 {
      NonNullCountBounds(vs[1..]);
      assert forall i :: 1 <= i < |vs| ==> vs[i] == vs[1..][i - 1];
      if HasNonNull(vs[1..]) {
        var k :| 0 <= k < |vs[1..]| && vs[1..][k] != Null;
        assert vs[k + 1] != Null;
      }
    }
  }

  /** Distinct non-null values never outnumber non-null cells, and there
      is one as soon as there is a non-null cell. */
  lemma {:induction false} UniqueWithinNonNull(vs: seq<Value>)
    ensures |NonNullValues(vs)| <= NonNullCount(vs)
    ensures HasNonNull(vs) ==> |NonNullValues(vs)| >= 1
  {
    if |vs| > 0 {
      UniqueWithinNonNull(vs[1..]);
      var rest := NonNullValues(vs[1..]);
      if vs[0] == Null {
        assert NonNullValues(vs) == rest;
      } else {
        assert NonNullValues(vs) == rest + {vs[0]};
      }
      if HasNonNull(vs) && vs[0] == Null {
        var k :| 0 <= k < |vs| && vs[k] != Null;
        assert vs[1..][k - 1] != Null;
      }
    }
  }

  /** The columns of `f` holding at least one non-null cell, in frame
      order: what survives `dropna(axis=1, how="all")`. */
  function NonEmptyColumns(columns: seq<string>, rows: seq<Row>): (r: seq<string>)
    ensures forall c :: c in r <==> c in columns && HasNonNull(ColumnOf(rows, c))
  {
    Filter(columns, c => HasNonNull(ColumnOf(rows, c)))
  }

  /** Restricts each row to `keep`, filling absent columns with `Null`:
      the records `to_dict(orient="records")` yields. */
  function Project(rows: seq<Row>, keep: seq<string>): (r: seq<Row>)
    ensures |r| == |rows|
    ensures forall i :: 0 <= i < |rows| ==>
              r[i].Keys == (set c | c in keep) &&
              forall c :: c in keep ==> r[i][c] == Get(rows[i], c)
  {
    seq(|rows|, i requires 0 <= i < |rows| => map c | c in keep :: Get(rows[i], c))
  }
}
