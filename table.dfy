/** The part of a pandas DataFrame the recommender uses: named columns,
    rows addressed by position, `data[col]`, `.iloc[positions]` and
    `.to_dict(orient="records")`. Row labels are the positions 0..n-1, which
    is what `read_csv` produces and what the processing steps keep. */
module Table {
  import opened Py

  type Row = map<string, Cell>

  datatype Frame = Frame(columns: seq<string>, rows: seq<Row>)

  /** Column names are distinct and every row has a cell in each column. */
  predicate WellFormed(f: Frame)
  {
    && (forall a, b :: 0 <= a < b < |f.columns| ==> f.columns[a] != f.columns[b])
    && (forall i :: 0 <= i < |f.rows| ==> f.rows[i].Keys == set c | c in f.columns)
  }

  /** `data[name].iloc[positions].tolist()`: the cells of one column at the
      given positions, in the order given; a missing column raises KeyError. */
  function ColumnAt(f: Frame, name: string, positions: seq<nat>): (r: Result<seq<Cell>>)
    requires WellFormed(f)
    requires forall k :: 0 <= k < |positions| ==> positions[k] < |f.rows|
    ensures r.Err? <==> name !in f.columns
    ensures r.Err? ==> r.error == KeyError
    ensures r.Ok? ==> |r.value| == |positions|
    ensures r.Ok? ==> forall k :: 0 <= k < |positions| ==> r.value[k] == f.rows[positions[k]][name]
  {
    if name !in f.columns then Err(KeyError)
    else Ok(seq(|positions|, k requires 0 <= k < |positions| => f.rows[positions[k]][name]))
  }

  /** One record of `to_dict(orient="records")`: column name to cell, in
      column order. */
  type Record = seq<(string, Cell)>

  /** The record of one row restricted to the columns cols, in that order. */
  function Project(row: Row, cols: seq<string>): (r: Record)
    requires forall j :: 0 <= j < |cols| ==> cols[j] in row
    ensures |r| == |cols|
    ensures forall j :: 0 <= j < |cols| ==> r[j] == (cols[j], row[cols[j]])
  {
    seq(|cols|, j requires 0 <= j < |cols| => (cols[j], row[cols[j]]))
  }

  /** `data.iloc[positions][cols].to_dict(orient="records")` for columns
      that all exist: one record per position, in the order given. The
      records are built from the frame's row tuples, and a frame with no
      columns has none, so selecting no columns gives no records at all. */
  function Records(f: Frame, positions: seq<nat>, cols: seq<string>): (r: seq<Record>)
    requires WellFormed(f)
    requires forall k :: 0 <= k < |positions| ==> positions[k] < |f.rows|
    requires forall j :: 0 <= j < |cols| ==> cols[j] in f.columns
    ensures |r| == if cols == [] then 0 else |positions|
    ensures forall k :: 0 <= k < |r| ==> r[k] == Project(f.rows[positions[k]], cols)
  {
    if cols == [] then []
    else seq(|positions|, k requires 0 <= k < |positions| => Project(f.rows[positions[k]], cols))
  }

  /** The cells that a column of records holds under the key name. */
  function Field(rs: seq<Record>, j: nat): (r: seq<Cell>)
    requires forall k :: 0 <= k < |rs| ==> j < |rs[k]|
    ensures |r| == |rs| && forall k :: 0 <= k < |rs| ==> r[k] == rs[k][j].1
  {
    seq(|rs|, k requires 0 <= k < |rs| => rs[k][j].1)
  }

  /** Projecting records on a column gives the column itself: the records
      agree with `data[name].iloc[positions]`. */
  lemma RecordsAgreeWithColumn(f: Frame, positions: seq<nat>, cols: seq<string>, j: nat)
    requires WellFormed(f)
    requires forall k :: 0 <= k < |positions| ==> positions[k] < |f.rows|
    requires forall i :: 0 <= i < |cols| ==> cols[i] in f.columns
    requires j < |cols|
    ensures ColumnAt(f, cols[j], positions) == Ok(Field(Records(f, positions, cols), j))
  {
    var c := ColumnAt(f, cols[j], positions);
    var fj := Field(Records(f, positions, cols), j);
    assert c.value == fj;
  }
}
