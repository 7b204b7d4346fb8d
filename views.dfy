/** The two display modes (interface.py:91-163), reduced to what they compute:
 *  "Par film" ranks the films by mean score and reports the number of films,
 *  the best and worst film and the gap between their means; "Par critique"
 *  offers the sorted titles in a picker and lists the chosen film's reviews,
 *  best score first, numbered from 1. Charts, number formatting and the
 *  Streamlit widgets themselves are not modelled.
 */
module Views {
  import opened Reviews
  import opened Ordering
  import opened Aggregation

  /** An `iloc[...]` on an empty frame raises `IndexError`. */
  datatype Outcome<T> = Ok(value: T) | IndexError

  datatype Option<T> = None | Some(value: T)

  function ByMean(s: FilmStats): real { s.mean }

  function BySentiment(r: Review): real { r.sentiment }

  /** `film_stats.sort_values(by='sentiment_moyen', ascending=False)`: the
   *  bar chart's order (interface.py:101) and the table's (interface.py:121),
   *  which are therefore the same. */
  function Ranked(stats: seq<FilmStats>): (r: seq<FilmStats>)
    ensures NonIncreasing(r, ByMean)
    ensures multiset(r) == multiset(stats)
    ensures |r| == |stats|
  {
    var r := SortDesc(stats, ByMean);
    assert |multiset(r)| == |multiset(stats)|;
    r
  }

  /** The four metrics of the "Par film" column (interface.py:111-116). */
  datatype Summary = Summary(filmCount: nat, top: FilmStats, bottom: FilmStats, scoreRange: real)

  /** The first film of the ranking has the highest mean, the last the lowest. */
  lemma RankedEnds(stats: seq<FilmStats>)
    requires |stats| > 0
    ensures |Ranked(stats)| == |stats|
    ensures Ranked(stats)[0] in stats && Ranked(stats)[|stats| - 1] in stats
    ensures forall s :: s in stats ==>
      Ranked(stats)[|stats| - 1].mean <= s.mean <= Ranked(stats)[0].mean
  {
    var ranked := Ranked(stats);
    forall s | s in stats
      ensures ranked[|ranked| - 1].mean <= s.mean <= ranked[0].mean
    {
      assert s in multiset(ranked);
      var i :| 0 <= i < |ranked| && ranked[i] == s;
    }
    assert ranked[0] in multiset(stats);
    assert ranked[|ranked| - 1] in multiset(stats);
  }

  /** The metrics: `iloc[0]` and `iloc[-1]` of the ranking, and the gap
   *  between their means. Top has the highest mean, bottom the lowest; with
   *  no film at all `iloc[0]` fails. */
  function FilmSummary(stats: seq<FilmStats>): (o: Outcome<Summary>)
    ensures o.Ok? <==> |stats| > 0
    ensures o.Ok? ==> o.value.filmCount == |stats|
    ensures o.Ok? ==> o.value.top == Ranked(stats)[0] && o.value.bottom == Ranked(stats)[|stats| - 1]
    ensures o.Ok? ==> o.value.top in stats && o.value.bottom in stats
    ensures o.Ok? ==> forall s :: s in stats ==> o.value.bottom.mean <= s.mean <= o.value.top.mean
    ensures o.Ok? ==> o.value.scoreRange == o.value.top.mean - o.value.bottom.mean >= 0.0
    ensures |stats| == 1 ==> o == Ok(Summary(1, stats[0], stats[0], 0.0))
  {
    if |stats| == 0 then IndexError
    else
      RankedEnds(stats);
      var ranked := Ranked(stats);
      var top, bottom := ranked[0], ranked[|ranked| - 1];
      Ok(Summary(|stats|, top, bottom, top.mean - bottom.mean))
  }

  /** The picker's options, `sorted(df['film_title'].unique())`
   *  (interface.py:128): every title once, ascending. */
  function Picker(rows: seq<Review>): (r: seq<string>)
    ensures StrictlyIncreasing(r)
    ensures forall t :: t in r <==> t in Titles(rows)
  {
    SortedDistinct(Titles(rows))
  }

  /** Row `i` is the first row of `stats` titled `film`. */
  predicate FirstWithTitle(stats: seq<FilmStats>, film: string, i: int)
  {
    0 <= i < |stats| && stats[i].title == film &&
    forall j :: 0 <= j < i ==> stats[j].title != film
  }

  /** `film_stats[film_stats['film_title'] == film].iloc[0]`
   *  (interface.py:134): the first statistics row of the film, if any. */
  function FindStats(stats: seq<FilmStats>, film: string): (o: Option<FilmStats>)
    ensures o.Some? <==> film in StatTitles(stats)
    ensures o.Some? ==> o.value in stats && o.value.title == film
    ensures o.Some? ==> exists i :: FirstWithTitle(stats, film, i) && stats[i] == o.value
  {
    if stats == [] then None
    else if stats[0].title == film then
      assert FirstWithTitle(stats, film, 0);
      Some(stats[0])
    else
      var tail := stats[1..];
      var o := FindStats(tail, film);
      assert StatTitles(stats) == [stats[0].title] + StatTitles(tail);
      if o.None? then o
      else
        var i :| FirstWithTitle(tail, film, i) && tail[i] == o.value;
        assert forall j :: 0 < j <= i ==> stats[j] == tail[j - 1];
        assert FirstWithTitle(stats, film, i + 1);
        o
  }

  /** The statistics row the "Par critique" page shows for `film`
   *  (interface.py:134), looked up in `film_stats`: found exactly when the
   *  film has rows, and then the statistics of those rows. */
  function FilmStat(rows: seq<Review>, film: string): (o: Option<FilmStats>)
    ensures o == if film in Titles(rows) then Some(StatsOf(rows, film)) else None
  {
    var stats := Aggregate(rows);
    var o := FindStats(stats, film);
    if o.Some? then
      var i :| 0 <= i < |stats| && stats[i] == o.value;
      assert stats[i] == StatsOf(rows, stats[i].title);
      o
    else o
  }

  /** One disclosure of the review list: "Critique <number>", with its review. */
  datatype Entry = Entry(number: nat, review: Review)

  /** `enumerate(...)` shown from 1 (interface.py:160-161). */
  function Numbered(rs: seq<Review>, first: nat): (es: seq<Entry>)
    ensures |es| == |rs|
    ensures forall i :: 0 <= i < |rs| ==> es[i].number == first + i && es[i].review == rs[i]
  {
    if rs == [] then [] else [Entry(first, rs[0])] + Numbered(rs[1..], first + 1)
  }

  function EntryReviews(es: seq<Entry>): (rs: seq<Review>)
    ensures |rs| == |es| && forall i :: 0 <= i < |es| ==> rs[i] == es[i].review
  {
    if es == [] then [] else [es[0].review] + EntryReviews(es[1..])
  }

  /** Entry `i` carries the number `i + 1`. */
  predicate NumberedFromOne(es: seq<Entry>)
  {
    forall i :: 0 <= i < |es| ==> es[i].number == i + 1
  }

  /** The review list of interface.py:158-161: `sort_values(by='sentiment',
   *  ascending=False)` then numbered from 1. It holds exactly the given rows,
   *  best score first. */
  function ReviewList(filmRows: seq<Review>): (es: seq<Entry>)
    ensures |es| == |filmRows|
    ensures multiset(EntryReviews(es)) == multiset(filmRows)
    ensures NonIncreasing(EntryReviews(es), BySentiment)
    ensures NumberedFromOne(es)
  {
    var sorted := SortDesc(filmRows, BySentiment);
    var es := Numbered(sorted, 1);
    assert EntryReviews(es) == sorted;
    assert |sorted| == |filmRows| by {
      assert |multiset(sorted)| == |multiset(filmRows)|;
    }
    es
  }

  /** What "Par critique" shows for one film: its statistics and its reviews. */
  datatype ReviewPage = ReviewPage(stat: FilmStats, entries: seq<Entry>)

  /** The "Par critique" page for `film` (interface.py:131-161): the film's
   *  statistics row and every review with that title, best score first,
   *  numbered 1..n. A film with no rows has no statistics row, and
   *  `iloc[0]` fails. */
  function ReviewView(rows: seq<Review>, film: string): (o: Outcome<ReviewPage>)
    ensures o.Ok? <==> film in Titles(rows)
    ensures o.Ok? ==> o.value.stat == StatsOf(rows, film)
    ensures o.Ok? ==> |o.value.entries| == o.value.stat.count
    ensures o.Ok? ==> multiset(EntryReviews(o.value.entries)) == multiset(RowsOf(rows, film))
    ensures o.Ok? ==> NonIncreasing(EntryReviews(o.value.entries), BySentiment)
    ensures o.Ok? ==> NumberedFromOne(o.value.entries)
  {
    var found := FilmStat(rows, film);
    if found.None? then IndexError
    else
      var filmRows := RowsOf(rows, film);
      var es := ReviewList(filmRows);
      assert found.value == StatsOf(rows, film);
      assert |es| == found.value.count;
      Ok(ReviewPage(found.value, es))
  }
}
