/** The ranking rule shared by the training script and the HTTP handler:
    enumerate one row of the similarity matrix, sort the (row, score) pairs by
    score in descending order with a stable sort, drop the first pair and
    keep the next top_n rows.

    The sort is modelled as an insertion sort that compares scores only,
    like Python's `sorted(..., key=lambda x: x[1], reverse=True)`. Every
    stable sort gives the same result, and the lemmas below show which one:
    scores descend and equal scores keep ascending row order.
    `RankOf` then describes the result without any sorting: a row's rank is
    the number of rows ranked ahead of it. */
module Ranking {
  import opened Py

  /** One pair of `enumerate(cosine_sim[idx])`. */
  datatype Scored = Scored(row: nat, score: real)

  function Enumerate(scores: seq<real>): seq<Scored>
  {
    seq(|scores|, i requires 0 <= i < |scores| => Scored(i, scores[i]))
  }

  /** The stable descending order on pairs whose rows appear in ascending
      order: a higher score first, and on equal scores the lower row first. */
  predicate Precedes(a: Scored, b: Scored)
  {
    a.score > b.score || (a.score == b.score && a.row < b.row)
  }

  predicate Ranked(s: seq<Scored>)
  {
    forall i, j :: 0 <= i < j < |s| ==> Precedes(s[i], s[j])
  }

  /** Inserts p in front of the first pair whose score is not above p's. */
  function Insert(p: Scored, s: seq<Scored>): (r: seq<Scored>)
    ensures multiset(r) == multiset(s) + multiset{p}
  {
    if s == [] || s[0].score <= p.score then [p] + s
    else
      assert s == [s[0]] + s[1..];
      [s[0]] + Insert(p, s[1..])
  }

  /** `sorted(pairs, key=score, reverse=True)`. */
  function SortByScore(ps: seq<Scored>): (r: seq<Scored>)
    ensures multiset(r) == multiset(ps)
  {
    if ps == [] then []
    else
      assert ps == [ps[0]] + ps[1..];
      Insert(ps[0], SortByScore(ps[1..]))
  }

  /** Inserting a pair whose row is below every row of a ranked sequence
      keeps it ranked: p goes in front of the pairs with its score. */
  lemma {:induction false} InsertRanked(p: Scored, s: seq<Scored>)
    requires Ranked(s)
    requires forall k :: 0 <= k < |s| ==> p.row < s[k].row
    ensures Ranked(Insert(p, s))
  {
    if s == [] || s[0].score <= p.score {
    } else {
      var t := Insert(p, s[1..]);
      InsertRanked(p, s[1..]);
      forall k | 0 <= k < |t| ensures Precedes(s[0], t[k]) {
        assert t[k] in multiset(t);
        if t[k] != p {
          assert t[k] in multiset(s[1..]);
          var m :| 0 <= m < |s[1..]| && s[1..][m] == t[k];
          assert s[m + 1] == t[k];
        }
      }
    }
  }

  /** The stable sort of pairs in ascending row order is ranked. */
  lemma {:induction false} SortRanked(ps: seq<Scored>)
    requires forall i, j :: 0 <= i < j < |ps| ==> ps[i].row < ps[j].row
    ensures Ranked(SortByScore(ps))
  {
    if ps != [] {
      var t := SortByScore(ps[1..]);
      SortRanked(ps[1..]);
      forall k | 0 <= k < |t| ensures ps[0].row < t[k].row {
        assert t[k] in multiset(ps[1..]);
        var m :| 0 <= m < |ps[1..]| && ps[1..][m] == t[k];
        assert ps[m + 1] == t[k];
      }
      InsertRanked(ps[0], t);
    }
  }

  /** r is the enumeration of scores in ranked order: ranked, and holding
      each row with its own score. */
  predicate RankedEnumeration(r: seq<Scored>, scores: seq<real>)
  {
    && |r| == |scores|
    && Ranked(r)
    && (forall k :: 0 <= k < |r| ==> r[k].row < |scores| && r[k].score == scores[r[k].row])
    && (forall j :: 0 <= j < |scores| ==> Scored(j, scores[j]) in r)
  }

  /** The stable sort of the enumeration is its ranked order. */
  lemma SortedEnumeration(scores: seq<real>)
    ensures RankedEnumeration(SortByScore(Enumerate(scores)), scores)
  {
    var e := Enumerate(scores);
    var r := SortByScore(e);
    SortRanked(e);
    assert |r| == |multiset(r)| == |multiset(e)| == |e|;
    forall k | 0 <= k < |r| ensures r[k].row < |scores| && r[k].score == scores[r[k].row] {
      assert r[k] in multiset(e);
    }
    forall j | 0 <= j < |scores| ensures Scored(j, scores[j]) in r {
      assert e[j] in multiset(r);
    }
  }

  // ---------------------------------------------------------------------
  // Ranks

  /** Row j is ranked ahead of row i: a higher score, or the same score and
      a lower row. */
  predicate Ahead(scores: seq<real>, j: nat, i: nat)
    requires j < |scores| && i < |scores|
  {
    scores[j] > scores[i] || (scores[j] == scores[i] && j < i)
  }

  /** The number of rows ranked ahead of row i. */
  function RankOf(scores: seq<real>, i: nat): nat
    requires i < |scores|
  {
    |set j: nat | j < |scores| && Ahead(scores, j, i)|
  }

  predicate DistinctRows(r: seq<Scored>)
  {
    forall a, b :: 0 <= a < b < |r| ==> r[a].row != r[b].row
  }

  lemma {:induction false} DistinctRowCount(r: seq<Scored>, k: nat)
    requires k <= |r| && DistinctRows(r)
    ensures |set m | 0 <= m < k :: r[m].row| == k
  {
    if k > 0 {
      DistinctRowCount(r, k - 1);
      var before := set m | 0 <= m < k - 1 :: r[m].row;
      assert (set m | 0 <= m < k :: r[m].row) == before + {r[k - 1].row};
      assert r[k - 1].row !in before;
    }
  }

  /** In a ranked enumeration the rows ahead of r[k] are those at the
      positions before k. */
  lemma AheadAreBefore(scores: seq<real>, r: seq<Scored>, k: nat)
    requires RankedEnumeration(r, scores) && k < |r|
    ensures (set j: nat | j < |scores| && Ahead(scores, j, r[k].row)) == set m | 0 <= m < k :: r[m].row
  {
    var i := r[k].row;
    var ahead := set j: nat | j < |scores| && Ahead(scores, j, i);
    var before := set m | 0 <= m < k :: r[m].row;
    forall j | j in ahead ensures j in before {
      var m :| 0 <= m < |r| && r[m] == Scored(j, scores[j]);
      if k <= m {
        NotAheadOfLater(scores, r, k, m);
        assert false;
      }
    }
    forall j | j in before ensures j in ahead {
      var m :| 0 <= m < k && r[m].row == j;
      assert Precedes(r[m], r[k]);
    }
  }

  /** No pair at or after position k is ranked ahead of r[k]. */
  lemma NotAheadOfLater(scores: seq<real>, r: seq<Scored>, k: nat, m: nat)
    requires RankedEnumeration(r, scores) && k <= m < |r|
    ensures !Ahead(scores, r[m].row, r[k].row)
  {
    if k < m {
      assert Precedes(r[k], r[m]);
    }
  }

  /** A row occurs once: two pairs of one row have the same score, and
      then the ranking orders them by row. */
  lemma RankedDistinct(scores: seq<real>, r: seq<Scored>)
    requires RankedEnumeration(r, scores)
    ensures DistinctRows(r)
  {
    forall a, b | 0 <= a < b < |r| ensures r[a].row != r[b].row {
      assert Precedes(r[a], r[b]);
    }
  }

  /** The pair at position k of a ranked enumeration has rank k. */
  lemma RankAtPosition(scores: seq<real>, r: seq<Scored>, k: nat)
    requires RankedEnumeration(r, scores) && k < |r|
    ensures r[k].row < |scores| && RankOf(scores, r[k].row) == k
  {
    AheadAreBefore(scores, r, k);
    RankedDistinct(scores, r);
    DistinctRowCount(r, k);
  }

  /** rows[k] is the row of rank base + k, for every k. */
  predicate RanksFrom(scores: seq<real>, rows: seq<nat>, base: nat)
  {
    forall k :: 0 <= k < |rows| ==> rows[k] < |scores| && RankOf(scores, rows[k]) == base + k
  }

  /** Every row of rows is ranked ahead of the rows after it. */
  predicate AheadInOrder(scores: seq<real>, rows: seq<nat>)
  {
    forall a, b :: 0 <= a < b < |rows| ==>
      rows[a] < |scores| && rows[b] < |scores| && Ahead(scores, rows[a], rows[b])
  }

  /** The row component of each pair. */
  function Rows(ps: seq<Scored>): (rows: seq<nat>)
    ensures |rows| == |ps| && forall k :: 0 <= k < |ps| ==> rows[k] == ps[k].row
  {
    seq(|ps|, k requires 0 <= k < |ps| => ps[k].row)
  }

  /** The rows of the sorted enumeration, best first: every row once, in
      rank order. */
  function SortedRows(scores: seq<real>): (rows: seq<nat>)
    ensures |rows| == |scores|
    ensures RanksFrom(scores, rows, 0)
    ensures AheadInOrder(scores, rows)
  {
    var r := SortByScore(Enumerate(scores));
    SortedEnumeration(scores);
    forall k | 0 <= k < |scores| ensures RankOf(scores, r[k].row) == k {
      RankAtPosition(scores, r, k);
    }
    assert forall a, b :: 0 <= a < b < |r| ==> Precedes(r[a], r[b]);
    Rows(r)
  }

  /** s[1:top_n + 1] is the contiguous run of s that starts at position 1;
      for top_n >= 0 it has min(top_n, len(s) - 1) elements. */
  lemma SliceAfterFirst<T>(s: seq<T>, topN: int)
    requires |s| > 0
    ensures var t := Slice(s, 1, topN + 1);
      && |t| < |s|
      && (topN >= 0 ==> |t| == Min(topN, |s| - 1))
      && forall k :: 0 <= k < |t| ==> t[k] == s[k + 1]
  {
  }

  // ---------------------------------------------------------------------
  // The rule itself

  /** `[i[0] for i in sorted(enumerate(scores), key=score, reverse=True)[1:top_n + 1]]`:
      the rows of ranks 1 to top_n. The first-ranked row is dropped whatever
      it is; it is the query row only when that row is ranked first. */
  function TopAfterFirst(scores: seq<real>, topN: int): (rows: seq<nat>)
    ensures |scores| == 0 ==> rows == []
    ensures |scores| > 0 ==> |rows| < |scores|
    ensures topN >= 0 && |scores| > 0 ==> |rows| == Min(topN, |scores| - 1)
    ensures RanksFrom(scores, rows, 1)
    ensures AheadInOrder(scores, rows)
    ensures forall a, b :: 0 <= a < b < |rows| ==> rows[a] != rows[b]
  {
    var all := SortedRows(scores);
    if |all| == 0 then []
    else
      SliceAfterFirst(all, topN);
      Slice(all, 1, topN + 1)
  }

  /** A row whose score is strictly above every other score of its row
      (the usual self-similarity) is never recommended. */
  lemma StrictMaximumExcluded(scores: seq<real>, q: nat, topN: int)
    requires q < |scores|
    requires forall j :: 0 <= j < |scores| && j != q ==> scores[j] < scores[q]
    ensures q !in TopAfterFirst(scores, topN)
  {
    assert (set j: nat | j < |scores| && Ahead(scores, j, q)) == {};
  }

  /** When every score ties, row i is ranked behind exactly the rows below it. */
  lemma TiedRank(scores: seq<real>, i: nat)
    requires i < |scores|
    requires forall j :: 0 <= j < |scores| ==> scores[j] == scores[0]
    ensures RankOf(scores, i) == i
  {
    var e := Enumerate(scores);
    assert DistinctRows(e);
    DistinctRowCount(e, i);
    var ahead := set j: nat | j < |scores| && Ahead(scores, j, i);
    var below := set m | 0 <= m < i :: e[m].row;
    forall j | j in ahead ensures j in below {
      assert e[j].row == j;
    }
    assert ahead == below;
  }

  /** When all scores tie (an empty description scores 0 against every row),
      the result is rows 1, 2, ... in order: row 0 is dropped, not the query. */
  lemma AllTiedGivesLeadingRows(scores: seq<real>, topN: int)
    requires forall j :: 0 <= j < |scores| ==> scores[j] == scores[0]
    ensures forall k :: 0 <= k < |TopAfterFirst(scores, topN)| ==> TopAfterFirst(scores, topN)[k] == k + 1
  {
    var rows := TopAfterFirst(scores, topN);
    forall k | 0 <= k < |rows| ensures rows[k] == k + 1 {
      TiedRank(scores, rows[k]);
    }
  }

  /** The query row itself is returned when an earlier row ties with its
      self-score: for row 1 of [1.0, 1.0], the answer is [1]. */
  lemma TiedSelfIsRecommended()
    ensures TopAfterFirst([1.0, 1.0], 10) == [1]
  {
    AllTiedGivesLeadingRows([1.0, 1.0], 10);
  }
}
