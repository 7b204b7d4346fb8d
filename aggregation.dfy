/** Per-film statistics (interface.py:81-88):
 *  `df.groupby('film_title')['sentiment'].agg(['mean', 'std', 'min', 'max', 'count'])`,
 *  renamed to `sentiment_moyen`, `écart_type`, `minimum`, `maximum`,
 *  `nombre_critiques`. `groupby` sorts its keys, so the statistics come in
 *  ascending title order. Means are exact reals here; the standard deviation
 *  is not modelled.
 */
module Aggregation {
  import opened Reviews
  import opened Ordering

  /** One row of `film_stats`. */
  datatype FilmStats = FilmStats(title: string, mean: real, minimum: real, maximum: real, count: nat)

  /** The `sentiment` column. */
  function Sentiments(rows: seq<Review>): (xs: seq<real>)
    ensures |xs| == |rows| && forall i :: 0 <= i < |rows| ==> xs[i] == rows[i].sentiment
  {
    if rows == [] then [] else [rows[0].sentiment] + Sentiments(rows[1..])
  }

  /** The total of the scores, added from the front. */
  function Sum(xs: seq<real>): real
  {
    if xs == [] then 0.0 else xs[0] + Sum(xs[1..])
  }

  /** The smallest score: a lower bound that is one of the scores. */
  function Min(xs: seq<real>): (m: real)
    requires |xs| > 0
    ensures forall i :: 0 <= i < |xs| ==> m <= xs[i]
    ensures m in xs
  {
    if |xs| == 1 then xs[0]
    else
      var rest := Min(xs[1..]);
      if xs[0] <= rest then xs[0] else rest
  }

  /** The largest score: an upper bound that is one of the scores. */
  function Max(xs: seq<real>): (m: real)
    requires |xs| > 0
    ensures forall i :: 0 <= i < |xs| ==> xs[i] <= m
    ensures m in xs
  {
    if |xs| == 1 then xs[0]
    else
      var rest := Max(xs[1..]);
      if xs[0] >= rest then xs[0] else rest
  }

  /** A sum of `n` scores, each between `lo` and `hi`, lies between `n * lo` and `n * hi`. */
  lemma {:induction false} SumBetween(xs: seq<real>, lo: real, hi: real)
    requires forall i :: 0 <= i < |xs| ==> lo <= xs[i] <= hi
    ensures |xs| as real * lo <= Sum(xs) <= |xs| as real * hi
  {
    if xs != [] {
      SumBetween(xs[1..], lo, hi);
      assert |xs| as real * lo == lo + (|xs| - 1) as real * lo;
      assert |xs| as real * hi == hi + (|xs| - 1) as real * hi;
    }
  }

  /** Dividing by a positive count keeps a sum's bounds. */
  lemma DivBetween(s: real, n: real, lo: real, hi: real)
    requires n > 0.0 && n * lo <= s <= n * hi
    ensures lo <= s / n <= hi
  {
    var q := s / n;
    assert q * n == s;
    assert (q - lo) * n == s - n * lo;
    assert (hi - q) * n == n * hi - s;
  }

  /** The mean of a non-empty list of scores, each between `lo` and `hi`,
   *  lies between `lo` and `hi`. */
  lemma MeanWithin(xs: seq<real>, lo: real, hi: real)
    requires |xs| > 0
    requires forall i :: 0 <= i < |xs| ==> lo <= xs[i] <= hi
    ensures lo <= Sum(xs) / (|xs| as real) <= hi
  {
    SumBetween(xs, lo, hi);
    DivBetween(Sum(xs), |xs| as real, lo, hi);
  }

  /** The statistics of film `t`: count, mean, minimum and maximum of the
   *  scores of its rows. */
  function StatsOf(rows: seq<Review>, t: string): (s: FilmStats)
    requires t in Titles(rows)
    ensures s.title == t && s.count == |RowsOf(rows, t)| && s.count >= 1
    ensures s.mean == Sum(Sentiments(RowsOf(rows, t))) / (s.count as real)
    ensures s.minimum <= s.mean <= s.maximum
    ensures forall x :: x in RowsOf(rows, t) ==> s.minimum <= x.sentiment <= s.maximum
    ensures exists x :: x in RowsOf(rows, t) && x.sentiment == s.minimum
    ensures exists x :: x in RowsOf(rows, t) && x.sentiment == s.maximum
  {
    var group := RowsOf(rows, t);
    RowsOfNonEmpty(rows, t);
    var xs := Sentiments(group);
    MeanWithin(xs, Min(xs), Max(xs));
    assert forall x :: x in group ==> Min(xs) <= x.sentiment <= Max(xs) by {
      forall x | x in group ensures Min(xs) <= x.sentiment <= Max(xs) {
        var i :| 0 <= i < |group| && group[i] == x;
        assert xs[i] == x.sentiment;
      }
    }
    var lo :| 0 <= lo < |xs| && xs[lo] == Min(xs);
    assert group[lo] in group;
    var hi :| 0 <= hi < |xs| && xs[hi] == Max(xs);
    assert group[hi] in group;
    FilmStats(t, Sum(xs) / (|xs| as real), Min(xs), Max(xs), |xs|)
  }

  /** The `film_title` column of `film_stats`, taken as `Reviews.Titles`
   *  takes it from the reviews. */
  function StatTitles(stats: seq<FilmStats>): (ts: seq<string>)
    ensures |ts| == |stats| && forall i :: 0 <= i < |stats| ==> ts[i] == stats[i].title
  {
    if stats == [] then [] else [stats[0].title] + StatTitles(stats[1..])
  }

  /** `film_stats`: one row per distinct title, in ascending title order,
   *  each counting exactly that title's rows, with the mean between the
   *  minimum and the maximum. */
  function Aggregate(rows: seq<Review>): (stats: seq<FilmStats>)
    ensures forall t :: t in StatTitles(stats) <==> t in Titles(rows)
    ensures StrictlyIncreasing(StatTitles(stats))
    ensures forall i :: 0 <= i < |stats| ==>
      stats[i].count == |RowsOf(rows, stats[i].title)| && stats[i].count >= 1 &&
      stats[i].minimum <= stats[i].mean <= stats[i].maximum
    ensures forall i :: 0 <= i < |stats| ==> stats[i] == StatsOf(rows, stats[i].title)
  {
    var keys := SortedDistinct(Titles(rows));
    var stats := seq(|keys|, i requires 0 <= i < |keys| => StatsOf(rows, keys[i]));
    assert StatTitles(stats) == keys;
    stats
  }
}
