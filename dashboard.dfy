/** The script's top level (interface.py:74-88 and 128) run on the fallback
 *  dataset: what the dashboard shows when the CSV file is missing.
 */
module Dashboard {
  import opened Reviews
  import opened Ordering
  import opened Loader
  import opened Aggregation
  import opened Views

  /** A sequence with no element twice has as many elements as its set. */
  lemma {:induction false} DistinctCardinality(a: seq<string>)
    requires NoDuplicates(a)
    ensures |set x | x in a| == |a|
  {
    if a != [] {
      DistinctCardinality(a[1..]);
      assert (set x | x in a) == {a[0]} + (set x | x in a[1..]);
      assert a[0] !in (set x | x in a[1..]);
    }
  }

  /** Two duplicate-free sequences with the same elements have the same length. */
  lemma SameElementsSameLength(a: seq<string>, b: seq<string>)
    requires NoDuplicates(a) && NoDuplicates(b)
    requires forall x :: x in a <==> x in b
    ensures |a| == |b|
  {
    DistinctCardinality(a);
    DistinctCardinality(b);
    assert (set x | x in a) == (set x | x in b);
  }

  /** The range `np.random.uniform(0.5, 0.53)` draws from (interface.py:62). */
  ghost predicate DrawnUniformly(sentiments: seq<real>)
  {
    forall i :: 0 <= i < |sentiments| ==> 0.5 <= sentiments[i] < 0.53
  }

  /** Without the CSV file, `film_stats` has one row per fallback film, ten
   *  in all, each over 15 reviews. */
  lemma FallbackStatistics(nfc: string -> string, sentiments: seq<real>)
    requires |sentiments| == FallbackSize
    requires forall j :: 0 <= j < |Films| ==> nfc(Films[j]) == Films[j]
    ensures forall t :: t in StatTitles(Aggregate(LoadData(nfc, NoFile, sentiments))) <==> t in Films
    ensures |Aggregate(LoadData(nfc, NoFile, sentiments))| == 10
    ensures forall i :: 0 <= i < |Aggregate(LoadData(nfc, NoFile, sentiments))| ==>
      Aggregate(LoadData(nfc, NoFile, sentiments))[i].count == PerFilm
  {
    FallbackRepairIsIdentity(nfc, sentiments);
    FallbackRowStatistics(sentiments);
  }

  /** `film_stats` of the generated fallback rows: the ten films, 15 reviews each. */
  lemma FallbackRowStatistics(sentiments: seq<real>)
    requires |sentiments| == FallbackSize
    ensures forall t :: t in StatTitles(Aggregate(FallbackRows(sentiments))) <==> t in Films
    ensures |Aggregate(FallbackRows(sentiments))| == 10
    ensures forall i :: 0 <= i < |Aggregate(FallbackRows(sentiments))| ==>
      Aggregate(FallbackRows(sentiments))[i].count == PerFilm
  {
    var rows := FallbackRows(sentiments);
    var stats := Aggregate(rows);
    FallbackTitleSet(sentiments);
    FilmsDistinct();
    var ts := StatTitles(stats);
    forall i, j | 0 <= i < j < |ts| ensures ts[i] != ts[j] {
      StrictlyIncreasingDistinct(ts, i, j);
    }
    SameElementsSameLength(ts, Films);
    forall i | 0 <= i < |stats|
      ensures stats[i].count == PerFilm
    {
      assert ts[i] in Films;
      var j :| 0 <= j < |Films| && Films[j] == ts[i];
      FallbackFifteenEach(sentiments, j);
    }
  }

  /** If every score lies in [lo, hi), so does every film's minimum, mean
   *  and maximum. */
  lemma StatsWithin(rows: seq<Review>, lo: real, hi: real)
    requires forall k :: 0 <= k < |rows| ==> lo <= rows[k].sentiment < hi
    ensures forall i :: 0 <= i < |Aggregate(rows)| ==>
      lo <= Aggregate(rows)[i].minimum <= Aggregate(rows)[i].mean <=
      Aggregate(rows)[i].maximum < hi
  {
    var stats := Aggregate(rows);
    forall i | 0 <= i < |stats|
      ensures lo <= stats[i].minimum <= stats[i].mean <= stats[i].maximum < hi
    {
      var t := stats[i].title;
      assert stats[i] == StatsOf(rows, t);
      RowsOfMembers(rows, t);
      var x :| x in RowsOf(rows, t) && x.sentiment == stats[i].minimum;
      var y :| y in RowsOf(rows, t) && y.sentiment == stats[i].maximum;
      var a :| 0 <= a < |rows| && rows[a] == x;
      var b :| 0 <= b < |rows| && rows[b] == y;
    }
  }

  /** With draws in [0.5, 0.53), every fallback film's minimum, mean and
   *  maximum lie in [0.5, 0.53). */
  lemma FallbackScoreBounds(nfc: string -> string, sentiments: seq<real>)
    requires |sentiments| == FallbackSize && DrawnUniformly(sentiments)
    ensures forall i :: 0 <= i < |Aggregate(LoadData(nfc, NoFile, sentiments))| ==>
      0.5 <= Aggregate(LoadData(nfc, NoFile, sentiments))[i].minimum <=
      Aggregate(LoadData(nfc, NoFile, sentiments))[i].mean <=
      Aggregate(LoadData(nfc, NoFile, sentiments))[i].maximum < 0.53
  {
    var rows := LoadData(nfc, NoFile, sentiments);
    assert forall k :: 0 <= k < |rows| ==> rows[k].sentiment == sentiments[k];
    StatsWithin(rows, 0.5, 0.53);
  }

  /** Without the CSV file the picker offers the ten films, sorted. */
  lemma FallbackPicker(nfc: string -> string, sentiments: seq<real>)
    requires |sentiments| == FallbackSize
    requires forall j :: 0 <= j < |Films| ==> nfc(Films[j]) == Films[j]
    ensures |Picker(LoadData(nfc, NoFile, sentiments))| == 10
    ensures forall t :: t in Picker(LoadData(nfc, NoFile, sentiments)) <==> t in Films
  {
    FallbackRepairIsIdentity(nfc, sentiments);
    var p := Picker(FallbackRows(sentiments));
    FallbackTitleSet(sentiments);
    FilmsDistinct();
    forall i, j | 0 <= i < j < |p| ensures p[i] != p[j] {
      StrictlyIncreasingDistinct(p, i, j);
    }
    SameElementsSameLength(p, Films);
  }
}
