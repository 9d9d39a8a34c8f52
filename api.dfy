/** The `/recommend` HTTP handler: validate the `title` query argument,
    look it up, rank as the training script does with top_n fixed at 10,
    and answer with the display columns of the recommended rows. */
module Api {
  import opened Py
  import opened Table
  import opened Ranking
  import opened TitleIndex
  import opened Recommender

  /** The columns the handler shows, in this order, when present. */
  const DisplayColumns: seq<string> := ["Movie Name", "Genre", "Movie Rating"]

  const MissingTitleMessage := "Missing 'title' parameter."

  /** `[1:11]`: ranks 1 to 10. */
  const ResultCount := 10

  function TitleNotFoundMessage(title: string): string
  {
    "Movie '" + title + "' not found in the dataset."
  }

  /** The JSON body: an error object or a list of records. */
  datatype Body = ErrorJson(message: string) | RecordsJson(records: seq<Record>)

  datatype Response = Response(status: nat, body: Body)

  /** The elements of cols occur in wanted in the same order. */
  ghost predicate InOrderOf(cols: seq<string>, wanted: seq<string>)
  {
    forall a, b :: 0 <= a < b < |cols| ==> PairInOrder(cols[a], cols[b], wanted)
  }

  /** x occurs in wanted before some occurrence of y. */
  ghost predicate PairInOrder(x: string, y: string, wanted: seq<string>)
  {
    exists i, j :: 0 <= i < j < |wanted| && wanted[i] == x && wanted[j] == y
  }

  /** `[col for col in wanted if col in columns]`: the wanted columns that
      exist, in the wanted order. */
  function Present(wanted: seq<string>, columns: seq<string>): (cols: seq<string>)
    ensures |cols| <= |wanted|
    ensures forall c :: c in cols <==> c in wanted && c in columns
    ensures InOrderOf(cols, wanted)
  {
    if wanted == [] then []
    else
      var rest := Present(wanted[1..], columns);
      assert forall c :: c in wanted <==> c == wanted[0] || c in wanted[1..];
      ShiftOrder(rest, wanted);
      if wanted[0] in columns then
        var cols := [wanted[0]] + rest;
        forall a, b | 0 <= a < b < |cols|
          ensures PairInOrder(cols[a], cols[b], wanted)
        {
          if a == 0 {
            assert cols[b] == rest[b - 1] && rest[b - 1] in rest;
            var j :| 0 <= j < |wanted[1..]| && wanted[1..][j] == cols[b];
            assert wanted[0] == cols[a] && wanted[j + 1] == cols[b];
          } else {
            assert cols[a] == rest[a - 1] && cols[b] == rest[b - 1];
            assert PairInOrder(rest[a - 1], rest[b - 1], wanted);
          }
        }
        cols
      else
        rest
  }

  /** Order within the tail of wanted is order within wanted. */
  lemma ShiftOrder(cols: seq<string>, wanted: seq<string>)
    requires wanted != [] && InOrderOf(cols, wanted[1..])
    ensures InOrderOf(cols, wanted)
  {
    forall a, b | 0 <= a < b < |cols|
      ensures PairInOrder(cols[a], cols[b], wanted)
    {
      var i, j :| 0 <= i < j < |wanted[1..]| && wanted[1..][i] == cols[a] && wanted[1..][j] == cols[b];
      assert 0 <= i + 1 < j + 1 < |wanted| && wanted[i + 1] == cols[a] && wanted[j + 1] == cols[b];
    }
    assert InOrderOf(cols, wanted);
  }

  /** `columns_to_show`. */
  function ColumnsToShow(columns: seq<string>): seq<string>
  {
    Present(DisplayColumns, columns)
  }

  /** The display columns in order: the title column first whenever it is
      present, and no column twice. */
  lemma ColumnsToShowOrder(columns: seq<string>)
    ensures NameColumn in columns ==> |ColumnsToShow(columns)| > 0 && ColumnsToShow(columns)[0] == NameColumn
    ensures forall a, b :: 0 <= a < b < |ColumnsToShow(columns)| ==> ColumnsToShow(columns)[a] != ColumnsToShow(columns)[b]
  {
    var cols := ColumnsToShow(columns);
    assert "Movie Name"[0] != "Genre"[0] && "Genre"[0] != "Movie Rating"[0] && "Movie Name"[6] != "Movie Rating"[6];
    assert InOrderOf(cols, DisplayColumns);
    forall a, b | 0 <= a < b < |cols| ensures cols[a] != cols[b] {
      assert PairInOrder(cols[a], cols[b], DisplayColumns);
      var i, j :| 0 <= i < j < |DisplayColumns| && DisplayColumns[i] == cols[a] && DisplayColumns[j] == cols[b];
    }
  }

  /** records[k] is the projection on cols of the row of rank k + 1. */
  ghost predicate RecordsRankedFromOne(scores: seq<real>, data: Frame, cols: seq<string>, records: seq<Record>)
    requires WellFormed(data) && |scores| == |data.rows|
    requires forall j :: 0 <= j < |cols| ==> cols[j] in data.columns
  {
    forall k :: 0 <= k < |records| ==> ProjectsRank(scores, data, cols, records[k], k + 1)
  }

  /** record is the projection on cols of a row of the given rank. */
  ghost predicate ProjectsRank(scores: seq<real>, data: Frame, cols: seq<string>, record: Record, rank: nat)
    requires WellFormed(data) && |scores| == |data.rows|
    requires forall j :: 0 <= j < |cols| ==> cols[j] in data.columns
  {
    exists i :: 0 <= i < |scores| && RankOf(scores, i) == rank && record == Project(data.rows[i], cols)
  }

  lemma RecordsOfRankedRows(scores: seq<real>, data: Frame, rows: seq<nat>, cols: seq<string>, records: seq<Record>)
    requires WellFormed(data) && |scores| == |data.rows|
    requires forall j :: 0 <= j < |cols| ==> cols[j] in data.columns
    requires RanksFrom(scores, rows, 1)
    requires records == Records(data, rows, cols)
    ensures RecordsRankedFromOne(scores, data, cols, records)
  {
    forall k | 0 <= k < |records| ensures ProjectsRank(scores, data, cols, records[k], k + 1) {
      var i := rows[k];
      assert 0 <= i < |scores| && RankOf(scores, i) == k + 1 && records[k] == Project(data.rows[i], cols);
    }
  }

  /** `recommend()` for the query argument `title` (None when absent):
      400 for a missing or empty title, 404 for one the index lacks, and
      otherwise 200 with min(10, n - 1) records, the record of rank k + 1 at
      position k, each holding the display columns the data has; when the
      data has none of the display columns, 200 with no records. */
  function Recommend(title: Option<string>, sim: seq<seq<real>>, data: Frame, index: seq<Entry>)
    : (resp: Response)
    requires Consistent(sim, data, index)
    requires title.Some? && title.value != "" ==> !Find(index, title.value).Ambiguous?
    ensures resp.status in {200, 400, 404}
    ensures resp.status == 400 <==> title.None? || title.value == ""
    ensures resp.status == 400 ==> resp.body == ErrorJson(MissingTitleMessage)
    ensures resp.status == 404 <==> title.Some? && title.value != "" && Find(index, title.value).NotFound?
    ensures resp.status == 404 ==> resp.body == ErrorJson(TitleNotFoundMessage(title.value))
    ensures resp.status == 200 ==>
      && title.Some? && Find(index, title.value).Found?
      && resp.body.RecordsJson?
      && |resp.body.records| == (if ColumnsToShow(data.columns) == [] then 0 else Min(ResultCount, |data.rows| - 1))
      && RecordsRankedFromOne(sim[Find(index, title.value).row], data, ColumnsToShow(data.columns), resp.body.records)
  {
    if title.None? || title.value == "" then Response(400, ErrorJson(MissingTitleMessage))
    else
      var t := title.value;
      var found := Find(index, t);
      if found.NotFound? then Response(404, ErrorJson(TitleNotFoundMessage(t)))
      else
        var q := found.row;
        assert Entry(Text(t), q) in index;
        var rows := TopAfterFirst(sim[q], ResultCount);
        var cols := ColumnsToShow(data.columns);
        var records := Records(data, rows, cols);
        RecordsOfRankedRows(sim[q], data, rows, cols, records);
        Response(200, RecordsJson(records))
  }

  /** The handler and the training script agree: when the title column is
      present, the titles of the handler's records are exactly what
      `get_recommendations(title, ..., top_n=10)` returns. */
  lemma HandlerAgreesWithTraining(title: string, sim: seq<seq<real>>, data: Frame, index: seq<Entry>)
    requires Consistent(sim, data, index)
    requires Find(index, title).Found? && title != ""
    requires NameColumn in data.columns
    ensures Recommend(Some(title), sim, data, index).status == 200
    ensures GetRecommendations(title, sim, data, index, DefaultTopN).Ok?
    ensures Field(Recommend(Some(title), sim, data, index).body.records, 0)
      == GetRecommendations(title, sim, data, index, DefaultTopN).value
  {
    var cols := ColumnsToShow(data.columns);
    ColumnsToShowOrder(data.columns);
    var q := Find(index, title).row;
    assert Entry(Text(title), q) in index;
    var rows := TopAfterFirst(sim[q], ResultCount);
    RecordsAgreeWithColumn(data, rows, cols, 0);
  }
}
