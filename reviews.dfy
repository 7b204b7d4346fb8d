/** The rows of the dashboard's DataFrame and the two row queries every view
 *  is built from: the column of titles, and the rows of one film
 *  (`df[df['film_title'] == film]`, interface.py:131).
 */
module Reviews {

  /** One row: film title, critique text, sentiment score. Scores are exact
   *  reals here; the source holds floats. */
  datatype Review = Review(title: string, critique: string, sentiment: real)

  /** The `film_title` column. `Aggregation.StatTitles` is the same column of
   *  the statistics table, whose rows are of another type. */
  function Titles(rows: seq<Review>): (ts: seq<string>)
    ensures |ts| == |rows| && forall i :: 0 <= i < |rows| ==> ts[i] == rows[i].title
  {
    if rows == [] then [] else [rows[0].title] + Titles(rows[1..])
  }

  /** No title occurs twice in `ts`. */
  ghost predicate NoDuplicates(ts: seq<string>)
  {
    forall i, j :: 0 <= i < j < |ts| ==> ts[i] != ts[j]
  }

  /** The rows whose title is `t`, in their original order. */
  function RowsOf(rows: seq<Review>, t: string): (r: seq<Review>)
    ensures forall i :: 0 <= i < |r| ==> r[i].title == t
    ensures |r| <= |rows|
  {
    if rows == [] then []
    else if rows[0].title == t then [rows[0]] + RowsOf(rows[1..], t)
    else RowsOf(rows[1..], t)
  }

  /** Each row with the title is kept as often as it occurs, and no other row. */
  lemma {:induction false} RowsOfMultiset(rows: seq<Review>, t: string)
    ensures forall x :: multiset(RowsOf(rows, t))[x] == if x.title == t then multiset(rows)[x] else 0
  {
    if rows != [] {
      RowsOfMultiset(rows[1..], t);
      assert rows == [rows[0]] + rows[1..];
    }
  }

  /** Every selected row has the title, and every row with the title is selected. */
  lemma RowsOfMembers(rows: seq<Review>, t: string)
    ensures forall x :: x in RowsOf(rows, t) <==> x in rows && x.title == t
  {
    RowsOfMultiset(rows, t);
    forall x
      ensures x in RowsOf(rows, t) <==> x in rows && x.title == t
    {
      assert x in RowsOf(rows, t) <==> x in multiset(RowsOf(rows, t));
      assert x in rows <==> x in multiset(rows);
    }
  }

  /** A film has at least one row exactly when it is one of the titles. */
  lemma {:induction false} RowsOfNonEmpty(rows: seq<Review>, t: string)
    ensures |RowsOf(rows, t)| > 0 <==> t in Titles(rows)
  {
    if rows != [] {
      RowsOfNonEmpty(rows[1..], t);
      assert Titles(rows) == [rows[0].title] + Titles(rows[1..]);
    }
  }

  /** Selecting from a concatenation selects from each part. */
  lemma {:induction false} RowsOfAppend(a: seq<Review>, b: seq<Review>, t: string)
    ensures RowsOf(a + b, t) == RowsOf(a, t) + RowsOf(b, t)
  {
    if a == [] {
      assert a + b == b;
    } else {
      var s := a + b;
      assert s != [] && s[0] == a[0] && s[1..] == a[1..] + b;
      RowsOfAppend(a[1..], b, t);
      if a[0].title == t {
        assert RowsOf(s, t) == [a[0]] + RowsOf(a[1..] + b, t);
        assert RowsOf(a, t) == [a[0]] + RowsOf(a[1..], t);
      } else {
        assert RowsOf(s, t) == RowsOf(a[1..] + b, t);
        assert RowsOf(a, t) == RowsOf(a[1..], t);
      }
    }
  }
}
