/** The title index built next to the similarity matrix:
    `pd.Series(data.index, index=data['Movie Name']).drop_duplicates()`.
    It is a series whose labels are titles and whose values are row
    positions. `drop_duplicates` compares values, not labels, so on distinct
    row positions it drops nothing: a title that occurs twice stays twice. */
module TitleIndex {
  import opened Py

  /** One element of the series: label (a title cell) and value (a row). */
  datatype Entry = Entry(title: Cell, row: nat)

  /** `pd.Series(data.index, index=names)`. */
  function Pair(names: seq<Cell>): (es: seq<Entry>)
    ensures |es| == |names|
    ensures forall i :: 0 <= i < |es| ==> es[i] == Entry(names[i], i)
  {
    seq(|names|, i requires 0 <= i < |names| => Entry(names[i], i))
  }

  /** es[i] is the first entry of es with its value. */
  predicate FirstWithRow(es: seq<Entry>, i: nat)
    requires i < |es|
  {
    forall j :: 0 <= j < i ==> es[j].row != es[i].row
  }

  /** `Series.drop_duplicates()` (keep="first") after the values in seen:
      the result keeps, in their order, exactly the first entry of each
      value not in seen. */
  function DropDuplicates(es: seq<Entry>, seen: set<nat>): (r: seq<Entry>)
    ensures |r| <= |es|
    ensures forall k :: 0 <= k < |r| ==> r[k] in es && r[k].row !in seen
    ensures forall a, b :: 0 <= a < b < |r| ==> r[a].row != r[b].row
    ensures forall i :: 0 <= i < |es| && es[i].row !in seen && FirstWithRow(es, i) ==> es[i] in r
  {
    if es == [] then []
    else if es[0].row in seen then
      var r := DropDuplicates(es[1..], seen);
      forall i | 0 <= i < |es| && es[i].row !in seen && FirstWithRow(es, i) ensures es[i] in r {
        FirstWithRowOfTail(es, i);
      }
      r
    else
      var t := DropDuplicates(es[1..], seen + {es[0].row});
      assert forall k :: 0 <= k < |t| ==> t[k].row != es[0].row;
      forall i | 1 <= i < |es| && es[i].row !in seen && FirstWithRow(es, i) ensures es[i] in t {
        assert es[i].row != es[0].row;
        FirstWithRowOfTail(es, i);
      }
      [es[0]] + t
  }

  /** A first entry after position 0 is a first entry of the tail. */
  lemma FirstWithRowOfTail(es: seq<Entry>, i: nat)
    requires 1 <= i < |es| && FirstWithRow(es, i)
    ensures es[i] == es[1..][i - 1] && FirstWithRow(es[1..], i - 1)
  {
  }

  /** drop_duplicates keeps the order of the entries it keeps. */
  lemma {:induction false} DropDuplicatesInOrder(es: seq<Entry>, seen: set<nat>)
    ensures IsSubsequence(DropDuplicates(es, seen), es)
  {
    if es != [] {
      if es[0].row in seen {
        DropDuplicatesInOrder(es[1..], seen);
        SubsequenceOfTail(DropDuplicates(es[1..], seen), es);
      } else {
        DropDuplicatesInOrder(es[1..], seen + {es[0].row});
        var r := DropDuplicates(es, seen);
        assert r[1..] == DropDuplicates(es[1..], seen + {es[0].row});
      }
    }
  }

  /** A subsequence of the tail of b is a subsequence of b. */
  lemma {:induction false} SubsequenceOfTail<T>(a: seq<T>, b: seq<T>)
    requires b != [] && IsSubsequence(a, b[1..])
    ensures IsSubsequence(a, b)
    decreases |b|, 0
  {
    if a != [] && a[0] == b[0] {
      SubsequenceDropHead(a, b[1..]);
    }
  }

  /** Dropping the head of a subsequence leaves a subsequence. */
  lemma {:induction false} SubsequenceDropHead<T>(a: seq<T>, c: seq<T>)
    requires a != [] && IsSubsequence(a, c)
    ensures IsSubsequence(a[1..], c)
    decreases |c|, 1
  {
    if a[0] == c[0] {
      if a[1..] != [] {
        SubsequenceOfTail(a[1..], c);
      }
    } else {
      SubsequenceDropHead(a, c[1..]);
      if a[1..] != [] {
        SubsequenceOfTail(a[1..], c);
      }
    }
  }

  /** On entries whose values are distinct and unseen, drop_duplicates is
      the identity. */
  lemma {:induction false} DropDuplicatesOfDistinct(es: seq<Entry>, seen: set<nat>)
    requires forall a, b :: 0 <= a < b < |es| ==> es[a].row != es[b].row
    requires forall k :: 0 <= k < |es| ==> es[k].row !in seen
    ensures DropDuplicates(es, seen) == es
  {
    if es != [] {
      forall k | 0 <= k < |es[1..]| ensures es[1..][k].row !in seen + {es[0].row} {
        assert es[1..][k] == es[k + 1];
      }
      DropDuplicatesOfDistinct(es[1..], seen + {es[0].row});
    }
  }

  /** The index built by the training script: entry i is the title of row i
      with value i, for every row; no entry is dropped. */
  function BuildIndex(names: seq<Cell>): (index: seq<Entry>)
    ensures |index| == |names|
    ensures forall i :: 0 <= i < |names| ==> index[i] == Entry(names[i], i)
  {
    DropDuplicatesOfDistinct(Pair(names), {});
    DropDuplicates(Pair(names), {})
  }

  /** What `title in index_map` and `index_map[title]` find for a title. */
  datatype Lookup = NotFound | Found(row: nat) | Ambiguous(rows: seq<nat>)

  /** The values of the entries labelled with the string t, in order. */
  function RowsTitled(index: seq<Entry>, t: string): (rows: seq<nat>)
    ensures |rows| <= |index|
    ensures forall r :: r in rows <==> Entry(Text(t), r) in index
  {
    if index == [] then []
    else
      var rest := RowsTitled(index[1..], t);
      assert forall e :: e in index <==> e == index[0] || e in index[1..];
      if index[0].title == Text(t) then [index[0].row] + rest else rest
  }

  /** At least two entries carry the label t. */
  ghost predicate TitledTwice(index: seq<Entry>, t: string)
  {
    exists a, b :: 0 <= a < b < |index| && index[a].title == Text(t) && index[b].title == Text(t)
  }

  /** Some entry carries the label t. */
  ghost predicate Titled(index: seq<Entry>, t: string)
  {
    exists k :: 0 <= k < |index| && index[k].title == Text(t)
  }

  /** A row is listed for t exactly when some entry carries the label t. */
  lemma RowsTitledOnce(index: seq<Entry>, t: string)
    ensures |RowsTitled(index, t)| >= 1 <==> Titled(index, t)
  {
    var rows := RowsTitled(index, t);
    if Titled(index, t) {
      var k :| 0 <= k < |index| && index[k].title == Text(t);
      assert index[k] == Entry(Text(t), index[k].row);
      assert index[k].row in rows;
    }
    if |rows| >= 1 {
      assert rows[0] in rows;
      var k :| 0 <= k < |index| && index[k] == Entry(Text(t), rows[0]);
    }
  }

  /** Two entries carry t: the head and one of the tail, or two of the tail. */
  lemma TitledTwiceCons(index: seq<Entry>, t: string)
    requires index != []
    ensures TitledTwice(index, t) <==>
      if index[0].title == Text(t) then Titled(index[1..], t) else TitledTwice(index[1..], t)
  {
    var rest := index[1..];
    if TitledTwice(index, t) {
      var a, b :| 0 <= a < b < |index| && index[a].title == Text(t) && index[b].title == Text(t);
      assert rest[b - 1] == index[b];
      if index[0].title != Text(t) {
        assert rest[a - 1] == index[a];
      }
    }
    if index[0].title == Text(t) && Titled(rest, t) {
      var k :| 0 <= k < |rest| && rest[k].title == Text(t);
      assert index[k + 1] == rest[k];
    }
    if index[0].title != Text(t) && TitledTwice(rest, t) {
      var a, b :| 0 <= a < b < |rest| && rest[a].title == Text(t) && rest[b].title == Text(t);
      assert index[a + 1] == rest[a] && index[b + 1] == rest[b];
    }
  }

  /** Two rows are listed for t exactly when two entries carry the label t. */
  lemma {:induction false} RowsTitledTwice(index: seq<Entry>, t: string)
    ensures |RowsTitled(index, t)| >= 2 <==> TitledTwice(index, t)
  {
    if index != [] {
      RowsTitledTwice(index[1..], t);
      RowsTitledOnce(index[1..], t);
      TitledTwiceCons(index, t);
    }
  }

  /** `title in index_map` holds when some label equals the string; the
      lookup yields one row when the label occurs once, and a series of
      rows when it repeats. */
  function Find(index: seq<Entry>, t: string): (r: Lookup)
    ensures r.NotFound? <==> forall k :: 0 <= k < |index| ==> index[k].title != Text(t)
    ensures r.Ambiguous? <==> TitledTwice(index, t)
    ensures r.Found? ==> Entry(Text(t), r.row) in index
    ensures r.Found? ==> forall e :: e in index && e.title == Text(t) ==> e.row == r.row
    ensures r.Ambiguous? ==> |r.rows| >= 2
  {
    var rows := RowsTitled(index, t);
    RowsTitledTwice(index, t);
    assert forall k :: 0 <= k < |index| && index[k].title == Text(t) ==> index[k].row in rows;
    assert |rows| > 0 ==> Entry(Text(t), rows[0]) in index;
    if |rows| == 0 then NotFound
    else if |rows| == 1 then
      assert forall e :: e in index && e.title == Text(t) ==> e.row in rows;
      Found(rows[0])
    else Ambiguous(rows)
  }

  /** In the built index the rows found for t are exactly the rows whose
      title is t. */
  lemma RowsTitledInBuiltIndex(names: seq<Cell>, t: string, r: nat)
    ensures r in RowsTitled(BuildIndex(names), t) <==> r < |names| && names[r] == Text(t)
  {
    var index := BuildIndex(names);
    if r < |names| && names[r] == Text(t) {
      assert index[r] == Entry(Text(t), r);
    }
    if r in RowsTitled(index, t) {
      var k :| 0 <= k < |index| && index[k] == Entry(Text(t), r);
    }
  }

  /** In the built index: a title is found exactly when some row carries it,
      and a found row carries it. */
  lemma FindInBuiltIndex(names: seq<Cell>, t: string)
    ensures Find(BuildIndex(names), t).NotFound? <==> Text(t) !in names
    ensures Find(BuildIndex(names), t).Found? ==>
      Find(BuildIndex(names), t).row < |names| && names[Find(BuildIndex(names), t).row] == Text(t)
  {
    var index := BuildIndex(names);
    if Text(t) in names {
      var i :| 0 <= i < |names| && names[i] == Text(t);
      assert index[i].title == Text(t);
    }
    var r := Find(index, t);
    if r.Found? {
      RowsTitledInBuiltIndex(names, t, r.row);
    }
  }

  /** When row i carries a title no other row carries, the lookup finds i. */
  lemma FindUniqueTitle(names: seq<Cell>, i: nat, t: string)
    requires i < |names| && names[i] == Text(t)
    requires forall j :: 0 <= j < |names| && j != i ==> names[j] != Text(t)
    ensures Find(BuildIndex(names), t) == Found(i)
  {
    var index := BuildIndex(names);
    var rows := RowsTitled(index, t);
    RowsTitledInBuiltIndex(names, t, i);
    if |rows| >= 2 {
      DuplicateFreeRowsTitled(index, t);
      RowsTitledInBuiltIndex(names, t, rows[0]);
      RowsTitledInBuiltIndex(names, t, rows[1]);
      assert false;
    }
    RowsTitledInBuiltIndex(names, t, rows[0]);
  }

  /** The rows found for a title are distinct when the index values are. */
  lemma {:induction false} DuplicateFreeRowsTitled(index: seq<Entry>, t: string)
    requires forall a, b :: 0 <= a < b < |index| ==> index[a].row != index[b].row
    ensures forall a, b :: 0 <= a < b < |RowsTitled(index, t)| ==> RowsTitled(index, t)[a] != RowsTitled(index, t)[b]
  {
    if index != [] {
      DuplicateFreeRowsTitled(index[1..], t);
      var rest := RowsTitled(index[1..], t);
      if index[0].title == Text(t) {
        forall k | 0 <= k < |rest| ensures rest[k] != index[0].row {
          var m :| 0 <= m < |index[1..]| && index[1..][m] == Entry(Text(t), rest[k]);
          assert index[m + 1].row == rest[k];
        }
      }
    }
  }

  /** A title carried by two rows is ambiguous: the index keeps both. */
  lemma RepeatedTitleAmbiguous(names: seq<Cell>, i: nat, j: nat, t: string)
    requires i < j < |names| && names[i] == Text(t) && names[j] == Text(t)
    ensures Find(BuildIndex(names), t).Ambiguous?
  {
    var rows := RowsTitled(BuildIndex(names), t);
    RowsTitledInBuiltIndex(names, t, i);
    RowsTitledInBuiltIndex(names, t, j);
    assert i in rows && j in rows;
    if |rows| < 2 {
      AtMostOneMember(rows, i, j);
      assert false;
    }
    assert Find(BuildIndex(names), t) == Ambiguous(rows);
  }

  lemma AtMostOneMember(rows: seq<nat>, a: nat, b: nat)
    requires a in rows && b in rows && |rows| < 2
    ensures a == b
  {
  }
}
