/** `get_recommendations` of the training script: look the title up in the
    index, rank the rows of the similarity matrix by the query row's
    scores, and return the titles of the rows ranked 1 to top_n. */
module Recommender {
  import opened Py
  import opened Table
  import opened Ranking
  import opened TitleIndex

  const NameColumn := "Movie Name"

  /** The default of `top_n`. */
  const DefaultTopN := 10

  /** The single-element answer for a title the index does not hold. */
  const NotFoundMessage := "Title not found in dataset."

  /** The saved model fits together: a square similarity matrix with one
      row per data row, and an index whose values are rows of it. */
  predicate Consistent(sim: seq<seq<real>>, data: Frame, index: seq<Entry>)
  {
    && WellFormed(data)
    && |sim| == |data.rows|
    && (forall i :: 0 <= i < |sim| ==> |sim[i]| == |sim|)
    && (forall k :: 0 <= k < |index| ==> index[k].row < |sim|)
  }

  /** `data['Movie Name']`: the title of every row, in row order. */
  function TitleColumn(data: Frame): (names: seq<Cell>)
    requires WellFormed(data) && NameColumn in data.columns
    ensures |names| == |data.rows|
    ensures forall i :: 0 <= i < |data.rows| ==> names[i] == data.rows[i][NameColumn]
  {
    seq(|data.rows|, i requires 0 <= i < |data.rows| => data.rows[i][NameColumn])
  }

  /** What the training script saves fits together: with a square matrix
      over the rows, the index built from the title column only holds rows
      of the matrix. */
  lemma TrainedModelConsistent(sim: seq<seq<real>>, data: Frame)
    requires WellFormed(data) && NameColumn in data.columns
    requires |sim| == |data.rows| && forall i :: 0 <= i < |sim| ==> |sim[i]| == |sim|
    ensures Consistent(sim, data, BuildIndex(TitleColumn(data)))
  {
  }

  /** names[k] is the title of the row of rank k + 1 under the scores. */
  ghost predicate NamesRankedFromOne(scores: seq<real>, data: Frame, names: seq<Cell>)
    requires WellFormed(data) && |scores| == |data.rows| && NameColumn in data.columns
  {
    forall k :: 0 <= k < |names| ==> HasRank(scores, data, names[k], k + 1)
  }

  /** name is the title of a row of the given rank. */
  ghost predicate HasRank(scores: seq<real>, data: Frame, name: Cell, rank: nat)
    requires WellFormed(data) && |scores| == |data.rows| && NameColumn in data.columns
  {
    exists i :: 0 <= i < |scores| && RankOf(scores, i) == rank && name == data.rows[i][NameColumn]
  }

  /** `get_recommendations(title, cosine_sim, data, index_map, top_n)`:
      a title the index lacks gives the one-element not-found list; a
      found title gives min(top_n, n - 1) titles, the title of rank k + 1
      at position k; a data frame without the title column raises. */
  function GetRecommendations(title: string, sim: seq<seq<real>>, data: Frame, index: seq<Entry>, topN: int)
    : (r: Result<seq<Cell>>)
    requires Consistent(sim, data, index)
    requires !Find(index, title).Ambiguous?
    ensures Find(index, title).NotFound? ==> r == Ok([Text(NotFoundMessage)])
    ensures Find(index, title).Found? ==> (r.Err? <==> NameColumn !in data.columns)
    ensures r.Err? ==> r.error == KeyError
    ensures Find(index, title).Found? && r.Ok? ==>
      && NameColumn in data.columns
      && (topN >= 0 ==> |r.value| == Min(topN, |data.rows| - 1))
      && NamesRankedFromOne(sim[Find(index, title).row], data, r.value)
  {
    var found := Find(index, title);
    if found.NotFound? then Ok([Text(NotFoundMessage)])
    else
      var q := found.row;
      assert Entry(Text(title), q) in index;
      var rows := TopAfterFirst(sim[q], topN);
      var r := ColumnAt(data, NameColumn, rows);
      if r.Ok? then
        NamesOfRankedRows(sim[q], data, rows, r.value);
        r
      else r
  }

  /** The names of rows listed in rank order from rank 1 are ranked from 1. */
  lemma NamesOfRankedRows(scores: seq<real>, data: Frame, rows: seq<nat>, names: seq<Cell>)
    requires WellFormed(data) && |scores| == |data.rows| && NameColumn in data.columns
    requires RanksFrom(scores, rows, 1)
    requires |names| == |rows|
    requires forall k :: 0 <= k < |rows| ==> names[k] == data.rows[rows[k]][NameColumn]
    ensures NamesRankedFromOne(scores, data, names)
  {
    forall k | 0 <= k < |names| ensures HasRank(scores, data, names[k], k + 1) {
      var i := rows[k];
      assert 0 <= i < |scores| && RankOf(scores, i) == k + 1 && names[k] == data.rows[i][NameColumn];
    }
  }
}
