/** `load_data` (interface.py:51-71): the rows come from the CSV file when it
 *  exists, and otherwise from a synthetic fallback dataset of 150 rows whose
 *  titles are then passed through `fix_encoding`.
 *
 *  Reading the file and drawing the random sentiments are outside the model:
 *  the parsed file is the `CsvFile` case of `Source`, and the 150 random
 *  draws are the parameter `sentiments`.
 */
module Loader {
  import opened TextRepair
  import opened Reviews

  /** What `os.path.exists` and `pd.read_csv` yield: the parsed rows of the
   *  file, or no file. */
  datatype Source = CsvFile(rows: seq<Review>) | NoFile

  /** The ten fallback titles, in order (interface.py:60-61). */
  const Films: seq<string> := [
    "Forrest Gump", "Le Parrain", "Pulp Fiction", "La Liste de Schindler",
    "Le Seigneur des Anneaux", "Star Wars", "Psychose", "Parasite", "Inception", "Your Name"
  ]

  /** Rows in the fallback dataset, and rows per film (interface.py:62-64). */
  const FallbackSize: nat := 150
  const PerFilm: nat := 15

  /** No fallback title is listed twice. */
  lemma FilmsDistinct()
    ensures |Films| == 10
    ensures NoDuplicates(Films)
  {
    var sig := seq(10, i requires 0 <= i < 10 => (|Films[i]|, Films[i][2]));
    assert sig == [(12, 'r'), (10, ' '), (12, 'l'), (21, ' '), (23, ' '),
                   (9, 'a'), (8, 'y'), (8, 'r'), (9, 'c'), (9, 'u')];
    forall i, j | 0 <= i < j < |Films|
      ensures Films[i] != Films[j]
    {
      assert sig[i] != sig[j];
    }
  }

  /** The fallback titles are plain ASCII, so none holds an "Ã". */
  lemma FilmsHaveNoA()
    ensures forall j :: 0 <= j < |Films| ==> 'Ã' !in Films[j]
  {
    forall j | 0 <= j < |Films|
      ensures 'Ã' !in Films[j]
    {
      assert forall c :: c in Films[j] ==> c < 128 as char;
    }
  }

  /** The character of a decimal digit. */
  function Digit(d: nat): (c: char)
    requires d < 10
    ensures '0' <= c <= '9' && c as int - '0' as int == d
  {
    ('0' as int + d) as char
  }

  /** Python's `str(n)` for a natural number: its decimal digits. */
  function DecimalString(n: nat): (r: string)
    ensures |r| > 0 && forall i :: 0 <= i < |r| ==> '0' <= r[i] <= '9'
    ensures |r| > 1 ==> r[0] != '0'
  {
    if n < 10 then [Digit(n)] else DecimalString(n / 10) + [Digit(n % 10)]
  }

  /** The number a string of decimal digits denotes. */
  function DecimalValue(s: string): nat
    requires forall i :: 0 <= i < |s| ==> '0' <= s[i] <= '9'
  {
    if s == [] then 0
    else DecimalValue(s[..|s| - 1]) * 10 + (s[|s| - 1] as int - '0' as int)
  }

  /** Reading back the digits `str(n)` writes gives `n`. */
  lemma {:induction false} DecimalRoundTrip(n: nat)
    ensures DecimalValue(DecimalString(n)) == n
  {
    if n >= 10 {
      DecimalRoundTrip(n / 10);
      var r := DecimalString(n);
      assert r[..|r| - 1] == DecimalString(n / 10);
    }
  }

  /** The fixed text every placeholder critique starts with (interface.py:63). */
  const CritiquePrefix := "Exemple de critique "

  /** The placeholder critique of row `i` (interface.py:63): the prefix, then
   *  digits from which `i` can be read back. */
  function Critique(i: nat): (c: string)
    ensures CritiquePrefix <= c
    ensures forall k :: |CritiquePrefix| <= k < |c| ==> '0' <= c[k] <= '9'
    ensures DecimalValue(c[|CritiquePrefix|..]) == i
  {
    var c := CritiquePrefix + DecimalString(i);
    assert c[|CritiquePrefix|..] == DecimalString(i);
    DecimalRoundTrip(i);
    c
  }

  /** Different rows get different critiques. */
  lemma CritiquesDistinct(i: nat, j: nat)
    requires i != j
    ensures Critique(i) != Critique(j)
  {
  }

  /** The fallback DataFrame before title repair (interface.py:62-69): row
   *  `i` has title `films[i // 15]`, critique `Critique(i)` and the `i`-th
   *  random draw as sentiment. */
  function FallbackRows(sentiments: seq<real>): (rows: seq<Review>)
    requires |sentiments| == FallbackSize
    ensures |rows| == FallbackSize
    ensures forall i :: 0 <= i < |rows| ==>
      rows[i].title == Films[i / PerFilm] && rows[i].critique == Critique(i) &&
      rows[i].sentiment == sentiments[i]
  {
    seq(FallbackSize, i requires 0 <= i < FallbackSize =>
      Review(Films[i / PerFilm], Critique(i), sentiments[i]))
  }

  /** `df['film_title'] = df['film_title'].apply(fix_encoding)`
   *  (interface.py:70): only the titles change. */
  function RepairTitles(nfc: string -> string, rows: seq<Review>): (r: seq<Review>)
    ensures |r| == |rows|
    ensures forall i :: 0 <= i < |rows| ==>
      r[i].critique == rows[i].critique && r[i].sentiment == rows[i].sentiment &&
      Str(r[i].title) == Repair(nfc, Str(rows[i].title))
  {
    seq(|rows|, i requires 0 <= i < |rows| =>
      rows[i].(title := Repair(nfc, Str(rows[i].title)).s))
  }

  /** `load_data`: the file's rows exactly as read, or the repaired fallback. */
  function LoadData(nfc: string -> string, src: Source, sentiments: seq<real>): (rows: seq<Review>)
    requires src.NoFile? ==> |sentiments| == FallbackSize
    ensures src.CsvFile? ==> rows == src.rows
    ensures src.NoFile? ==> |rows| == FallbackSize
    ensures src.NoFile? ==> forall i :: 0 <= i < |rows| ==>
      Str(rows[i].title) == Repair(nfc, Str(Films[i / PerFilm])) &&
      rows[i].critique == Critique(i) && rows[i].sentiment == sentiments[i]
  {
    match src
    case CsvFile(fileRows) => fileRows
    case NoFile => RepairTitles(nfc, FallbackRows(sentiments))
  }

  /** When NFC leaves the ten (ASCII) titles alone, repair changes nothing in
   *  the fallback: the loaded rows are exactly the generated ones. */
  lemma FallbackRepairIsIdentity(nfc: string -> string, sentiments: seq<real>)
    requires |sentiments| == FallbackSize
    requires forall j :: 0 <= j < |Films| ==> nfc(Films[j]) == Films[j]
    ensures LoadData(nfc, NoFile, sentiments) == FallbackRows(sentiments)
  {
    FilmsHaveNoA();
    var rows := FallbackRows(sentiments);
    var r := LoadData(nfc, NoFile, sentiments);
    forall i | 0 <= i < FallbackSize
      ensures r[i] == rows[i]
    {
      RepairKeepsClean(nfc, Films[i / PerFilm]);
    }
  }

  /** Rows that all carry title `u` are all kept or all dropped. */
  lemma {:induction false} RowsOfUniform(block: seq<Review>, u: string, t: string)
    requires forall i :: 0 <= i < |block| ==> block[i].title == u
    ensures RowsOf(block, t) == if u == t then block else []
  {
    if block != [] {
      RowsOfUniform(block[1..], u, t);
    }
  }

  /** Row `k` carries title `films[k // 15]`, for each of the rows. */
  ghost predicate TitledInBlocks(rows: seq<Review>, films: seq<string>)
  {
    |rows| == PerFilm * |films| &&
    forall k :: 0 <= k < |rows| ==> rows[k].title == films[k / PerFilm]
  }

  lemma FallbackTitledInBlocks(sentiments: seq<real>)
    requires |sentiments| == FallbackSize
    ensures TitledInBlocks(FallbackRows(sentiments), Films)
  {
  }

  /** Index `PerFilm * q + i` lies in block `q`. */
  lemma BlockOf(q: nat, i: nat)
    requires i < PerFilm
    ensures (PerFilm * q + i) / PerFilm == q
  {
  }

  /** Block `q` of 15 rows, all carrying film `q`'s title. */
  lemma BlockUniform(rows: seq<Review>, films: seq<string>, q: nat)
    requires TitledInBlocks(rows, films) && q < |films|
    ensures PerFilm * q + PerFilm <= |rows|
    ensures forall k :: PerFilm * q <= k < PerFilm * q + PerFilm ==> rows[k].title == films[q]
  {
    forall k | PerFilm * q <= k < PerFilm * q + PerFilm
      ensures rows[k].title == films[q]
    {
      BlockOf(q, k - PerFilm * q);
    }
  }

  /** Appending rows that all carry title `u` adds them all to `u`'s count
   *  and nothing to any other title's. */
  lemma CountAfterUniformBlock(prefix: seq<Review>, rows: seq<Review>, lo: nat, hi: nat, u: string, t: string)
    requires lo <= hi <= |rows| && prefix == rows[..lo]
    requires forall k :: lo <= k < hi ==> rows[k].title == u
    ensures |RowsOf(rows[..hi], t)| == |RowsOf(prefix, t)| + if u == t then hi - lo else 0
  {
    var block := rows[lo..hi];
    assert forall i :: 0 <= i < |block| ==> block[i] == rows[lo + i];
    assert rows[..hi] == prefix + block;
    RowsOfAppend(prefix, block, t);
    RowsOfUniform(block, u, t);
  }

  /** Among the first `15 * m` rows, film `j` has 15 rows if `j < m` and
   *  none otherwise, when no film is listed twice. */
  lemma {:induction false} BlockPrefixCount(rows: seq<Review>, films: seq<string>, m: nat, j: nat)
    requires TitledInBlocks(rows, films) && m <= |films| && j < |films|
    requires forall a, b :: 0 <= a < b < |films| ==> films[a] != films[b]
    ensures |RowsOf(rows[..PerFilm * m], films[j])| == if j < m then PerFilm else 0
  {
    if m > 0 {
      BlockPrefixCount(rows, films, m - 1, j);
      var lo := PerFilm * (m - 1);
      BlockUniform(rows, films, m - 1);
      CountAfterUniformBlock(rows[..lo], rows, lo, lo + PerFilm, films[m - 1], films[j]);
      assert films[m - 1] == films[j] <==> m - 1 == j;
    }
  }

  /** Each of the ten films has exactly 15 of the 150 fallback rows. */
  lemma FallbackFifteenEach(sentiments: seq<real>, j: nat)
    requires |sentiments| == FallbackSize && j < |Films|
    ensures |RowsOf(FallbackRows(sentiments), Films[j])| == PerFilm
  {
    var rows := FallbackRows(sentiments);
    FallbackTitledInBlocks(sentiments);
    FilmsDistinct();
    BlockPrefixCount(rows, Films, 10, j);
    assert rows[..PerFilm * 10] == rows;
  }

  /** Rows titled block by block carry exactly the titles of the blocks. */
  lemma BlockTitles(rows: seq<Review>, films: seq<string>)
    requires TitledInBlocks(rows, films)
    ensures forall t :: t in Titles(rows) <==> t in films
  {
    forall t
      ensures t in Titles(rows) <==> t in films
    {
      if t in films {
        var j :| 0 <= j < |films| && films[j] == t;
        BlockOf(j, 0);
        assert Titles(rows)[PerFilm * j] == t;
      }
      if t in Titles(rows) {
        var k :| 0 <= k < |rows| && Titles(rows)[k] == t;
        assert k / PerFilm < |films|;
      }
    }
  }

  /** The fallback titles are exactly the ten films. */
  lemma FallbackTitleSet(sentiments: seq<real>)
    requires |sentiments| == FallbackSize
    ensures forall t :: t in Titles(FallbackRows(sentiments)) <==> t in Films
  {
    FallbackTitledInBlocks(sentiments);
    BlockTitles(FallbackRows(sentiments), Films);
  }
}
