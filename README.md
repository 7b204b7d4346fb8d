# Film review sentiment dashboard: a Dafny model

This project models the computing core of `interface.py`, a Streamlit dashboard
of film reviews scored by sentiment, and proves properties of that model. The
modelled parts are:

- **Title repair, `fix_encoding`**. It applies an ordered table of literal
  replacements for UTF-8 text that was decoded as Latin-1. Then it applies
  Unicode NFC normalisation and two exact-phrase fix-ups. Non-strings pass
  through unchanged.
- **Data loading, `load_data`**. Rows come from the CSV file when it exists.
  Otherwise a synthetic dataset of 150 rows is built: 10 films with 15 rows each
  and placeholder critiques. Its titles are then repaired.
- **Per-film statistics, `film_stats`**. `groupby` on the title gives the count,
  minimum, maximum and mean of the scores, in ascending title order.
- **"Par film" view**. Films are ranked by mean, best first. The view reports
  the number of films, the best and worst film, and the gap between their
  means.
- **"Par critique" view**. A picker offers the distinct titles, sorted. For the
  chosen film the view shows its statistics row and its reviews, best score
  first, numbered from 1.

Modules:

| module | file | models |
|---|---|---|
| `TextRepair` | `text_repair.dfy` | `str.replace`, dict-literal semantics, `fix_encoding`, as a function (`Repair`) and as the source's loop (`FixEncoding`) |
| `Reviews` | `reviews.dfy` | the rows, the title column, the row filter `df[df['film_title'] == film]` |
| `Ordering` | `ordering.dfy` | Python's string order, `sorted(set(...))`, a descending `sort_values` |
| `Loader` | `loader.dfy` | `load_data` and the fallback dataset |
| `Aggregation` | `aggregation.dfy` | `film_stats` |
| `Views` | `views.dfy` | both display modes, reduced to the values they show |
| `Dashboard` | `dashboard.dfy` | the script's top level run on the fallback dataset |

How the source is represented:

- NFC normalisation (`unicodedata.normalize`) is a library routine outside
  the model. It is a parameter `nfc: string -> string`. Every lemma that needs
  a fact about it states that fact as a `requires` about the specific strings
  involved.
- The random draws of the fallback dataset are a parameter `sentiments`.
- The CSV file is a parameter of type `Source`: either the parsed rows or no
  file.
- Scores and means are exact reals.
- An `iloc[0]` on an empty selection raises `IndexError` in the source. The
  model returns it as the `IndexError` case of `Views.Outcome`.

### What the code does at its edges

- **The duplicated "Ã" key.** The dict literal at interface.py:24-28 writes
  the one-character key "Ã" (U+00C3) twice: first with "à", then with "À". A
  Python dict keeps one entry for it, in the tenth position, with the value
  "À". So the replacement loop turns every bare "Ã" into "À" and never
  writes "à".
  `TextRepair.ReplacementTableOrder` proves that iterating the literal yields
  exactly `TextRepair.Table`.
- **The keys are read as the file holds them.** The model takes both keys at
  interface.py:27 to be the single character U+00C3. They were most likely
  meant as "Ã" followed by U+00A0 and "Ã" followed by U+0080. Those are the
  UTF-8 bytes of "à" and "À" read as Latin-1, and the second character is
  missing from the file. `TextRepair.TableRemovesA`, the consequence drawn
  from `TextRepair.PhrasesNeedNfcA` below, and
  `TextRepair.RepairNotIdempotent` all depend on this reading.
- **The target "Évadés" of interface.py:38 is unreachable from "EvadÃ©s".**
  The table's first entry rewrites "Ã©" before the phrase fix-up runs, so
  "EvadÃ©s" becomes "Evadés". `TextRepair.PhrasesNeedNfcA` shows that either
  phrase fix-up can fire only if NFC itself produces an "Ã".
- **`fix_encoding` is not idempotent.** `TextRepair.RepairNotIdempotent`
  gives an input under the real NFC behaviour. "A" followed by U+0303
  composes to "Ã" in the first pass, and the second pass turns it into "À".
  `TextRepair.RepairIdempotentWhenStable` states when idempotence does hold.
- **CSV titles are not repaired.** The repair at interface.py:70 comes after
  the CSV branch's `return` at interface.py:55. Only the fallback titles are
  repaired.
- **An empty selection raises.** `iloc[0]` at interface.py:134 raises
  `IndexError` for a film with no statistics row.

## Model

| member | source | states |
|---|---|---|
| TextRepair.Occurs | interface.py:37-40 | Python's `in` on strings: a piece at the start of the text occurs, and a piece longer than the text does not |
| TextRepair.OccursAtSomePosition | interface.py:37-40 | `k in s` holds exactly when `k` is a prefix of some suffix of `s` |
| TextRepair.OccursChars | interface.py:37-40 | every character of a substring found by `in` is a character of the text |
| TextRepair.OccursSingle | interface.py:37-40 | a one-character substring occurs exactly when the character is in the text |
| TextRepair.ReplaceAll | interface.py:31 | `str.replace` introduces no character that is in neither the text nor the replacement, and leaves the text unchanged when the key does not occur |
| TextRepair.ReplaceCharRemoves | interface.py:27-31 | replacing a single character by a text that lacks it removes every occurrence |
| TextRepair.ReplaceUnmatchedStep | interface.py:31 | where the key does not start, `str.replace` copies one character and goes on |
| TextRepair.ReplaceAfterUnmatchedPrefix | interface.py:31 | a prefix at none of whose positions the key starts passes through `str.replace` untouched |
| TextRepair.ReplaceAfterPlainPrefix | interface.py:31 | a prefix without the key's first character passes through `str.replace` untouched |
| TextRepair.KeyIndex | interface.py:24-28 | the index of a key in an ordered dict, or the dict's length exactly when the key is absent |
| TextRepair.DictStore | interface.py:24-28 | `d[k] = v` keeps keys distinct; an existing key keeps its position and takes the new value; a new key is appended; every other entry is unchanged |
| TextRepair.DictLiteral | interface.py:24-28 | a dict literal holds each key once, and its keys are exactly the keys of its pairs |
| TextRepair.DictLiteralLastWins | interface.py:24-28 | each key of a dict literal carries the value of the last pair that names it |
| TextRepair.TableKeysDistinct | interface.py:24-28 | the ten keys of the replacement table are pairwise different |
| TextRepair.DictLiteralOfDistinct | interface.py:24-28 | a literal whose keys are all different yields its pairs in source order |
| TextRepair.StoreOverLast | interface.py:27 | storing again under the last key replaces only that entry's value |
| TextRepair.LiteralPairsShape | interface.py:24-28 | the literal is the table's first nine pairs followed by "Ã"→"à" and "Ã"→"À" |
| TextRepair.ReplacementTableOrder | interface.py:24-28 | iterating the literal as written gives the ten-entry table, ending with "Ã"→"À" |
| TextRepair.ApplyRules | interface.py:30-31 | the loop's result holds only characters of the text or of the table's values |
| TextRepair.ApplyRulesAppend | interface.py:30-31 | running two rule lists in turn equals running their concatenation |
| TextRepair.ApplyRulesAbsent | interface.py:30-31 | rules whose keys all start with a character absent from the text change nothing |
| TextRepair.TableKeysStartWithA | interface.py:24-28 | every table key starts with "Ã" |
| TextRepair.TableRemovesA | interface.py:24-31 | after the replacement loop no "Ã" is left, as a character or as a substring |
| TextRepair.TableKeepsClean | interface.py:24-31 | a text without "Ã" goes through the replacement loop unchanged |
| TextRepair.NoLongRuleMatches | interface.py:30-31 | rules none of whose keys occur in the text leave it unchanged |
| TextRepair.ApplyRulesAbsentPrefix | interface.py:24-31 | the first nine table entries leave a lone "Ã" unchanged |
| TextRepair.FirstRuleSuffices | interface.py:24-31 | when the "Ã©" entry removes every "Ã", the rest of the table changes nothing |
| TextRepair.ReplaceLeadingAccent | interface.py:25 | the "Ã©" entry turns a leading "Ã©" into "é" and leaves clean text after it |
| TextRepair.TableOnOneAccent | interface.py:24-31 | the loop turns one "Ã©" between clean texts into "é" and changes nothing else |
| TextRepair.FixPhrase | interface.py:37-40 | the guarded fix-up equals the unguarded `str.replace`: the `in` test changes nothing |
| TextRepair.PhraseStartsAfterCleanPrefix | interface.py:37-40 | a phrase containing "Ã" cannot start inside a text without "Ã" that comes before it |
| TextRepair.FixPhraseInContext | interface.py:37-40 | a fix-up on one occurrence of its phrase between texts without "Ã" replaces that occurrence and nothing else |
| TextRepair.FixEvadesInContext | interface.py:37-38 | the "EvadÃ©s" fix-up turns `a + "EvadÃ©s" + b` into `a + "Évadés" + b` when `a` and `b` hold no "Ã" |
| TextRepair.FixCommunauteInContext | interface.py:39-40 | the "communautÃ©" fix-up turns `a + "communautÃ©" + b` into `a + "communauté" + b` when `a` and `b` hold no "Ã" |
| TextRepair.RepairText | interface.py:22-40 | the repaired string holds only characters of the normalised table output or of the two fix-up targets |
| TextRepair.Repair | interface.py:20-42 | non-strings are returned unchanged; strings go through the table, then NFC, then the two fix-ups |
| TextRepair.FixEncoding | interface.py:20-42 | the source's loop, which reassigns `text` once per table entry, computes `Repair` |
| TextRepair.PhrasesNeedNfcA | interface.py:34-40 | unless NFC produces an "Ã", the result is exactly the NFC of the table's output, so the phrase fix-ups never fire |
| TextRepair.RepairKeepsClean | interface.py:20-42 | a text without "Ã" that NFC leaves alone is returned unchanged |
| TextRepair.RepairCafe | interface.py:20-42 | "café" is returned unchanged |
| TextRepair.RepairOneAccent | interface.py:20-42 | one mis-encoded "é" between clean texts is repaired and nothing else changes |
| TextRepair.RepairEvades | interface.py:37-38 | "EvadÃ©s" is repaired to "Evadés" |
| TextRepair.RepairCommunaute | interface.py:39-40 | "communautÃ©" is repaired to "communauté" |
| TextRepair.RepairIdempotentWhenStable | interface.py:20-42 | repairing twice equals repairing once when NFC neither creates an "Ã" nor changes its own output |
| TextRepair.RepairNotIdempotent | interface.py:20-42 | "A" + U+0303 repairs to "Ã" and then to "À", so repair is not idempotent |
| Reviews.Titles | interface.py:128 | the title column has one entry per row, in row order |
| Reviews.RowsOf | interface.py:131 | the filter keeps only rows with the chosen title and never grows |
| Reviews.RowsOfMultiset | interface.py:131 | the filter keeps every row with the title as often as it occurs, and no other row |
| Reviews.RowsOfMembers | interface.py:131 | a row is selected exactly when it is in the data and has the title |
| Reviews.RowsOfNonEmpty | interface.py:131 | a film has rows exactly when it is one of the titles |
| Reviews.RowsOfAppend | interface.py:131 | filtering a concatenation concatenates the filtered parts |
| Ordering.StrLess | interface.py:128 | Python's `<` on `str`: a proper prefix comes first |
| Ordering.StrLessIsLexicographic | interface.py:128 | `<` on `str` holds exactly when `a` is a proper prefix of `b` or, at the first position where they differ, `a` has the smaller code point |
| Ordering.StrLessIrreflexive | interface.py:128 | no title sorts before itself |
| Ordering.StrLessTotal | interface.py:128 | any two different titles are ordered one way or the other |
| Ordering.StrLessTransitive | interface.py:128 | the title order is transitive |
| Ordering.StrictlyIncreasingDistinct | interface.py:128 | a strictly increasing list holds no title twice |
| Ordering.InsertDistinct | interface.py:128 | inserting into a sorted duplicate-free list keeps it so and adds exactly the new title |
| Ordering.SortedDistinct | interface.py:128 | `sorted(unique)` is strictly increasing and holds exactly the input's titles |
| Ordering.KeysBelow | interface.py:158 | a reordering of `r` plus `x` stays below any bound on the keys of `r` and `x` |
| Ordering.ConsNonIncreasing | interface.py:158 | putting in front an element whose key bounds all the others keeps the descending order |
| Ordering.InsertDesc | interface.py:158 | inserting into a list sorted descending keeps it sorted and adds exactly the one element |
| Ordering.SortDesc | interface.py:158 | `sort_values(ascending=False)` returns a permutation of its input, in non-increasing key order |
| Loader.FilmsDistinct | interface.py:60-61 | the ten fallback titles are pairwise different |
| Loader.FilmsHaveNoA | interface.py:60-61 | no fallback title contains "Ã" |
| Loader.Digit | interface.py:63 | a digit's character is in '0'..'9' and denotes the digit |
| Loader.DecimalString | interface.py:63 | `str(i)` is a non-empty string of digits without a leading zero |
| Loader.DecimalRoundTrip | interface.py:63 | reading back the digits of `str(i)` gives `i` |
| Loader.Critique | interface.py:63 | the critique of row `i` is "Exemple de critique " followed by digits that read back as `i` |
| Loader.CritiquesDistinct | interface.py:63 | different rows get different placeholder critiques |
| Loader.FallbackRows | interface.py:62-69 | the fallback frame has 150 rows; row `i` has title `films[i // 15]`, critique `"Exemple de critique " + str(i)` and the `i`-th random draw |
| Loader.RepairTitles | interface.py:70 | the title repair keeps the row count, the critiques and the scores, and repairs each title |
| Loader.LoadData | interface.py:51-71 | with the file present, its rows are returned as read, unrepaired; without it, 150 rows are returned, row `i` holding the repaired title `films[i // 15]`, critique `"Exemple de critique " + str(i)` and the `i`-th draw |
| Loader.FallbackRepairIsIdentity | interface.py:60-70 | when NFC leaves the ASCII titles alone, the repair changes nothing in the fallback |
| Loader.RowsOfUniform | interface.py:64 | rows that all carry one title are all kept or all dropped |
| Loader.FallbackTitledInBlocks | interface.py:64 | fallback row `i` carries title `films[i // 15]` |
| Loader.BlockOf | interface.py:64 | index `15 * q + i` with `i < 15` lies in block `q` |
| Loader.BlockUniform | interface.py:64 | block `q` consists of 15 rows, all with film `q`'s title |
| Loader.CountAfterUniformBlock | interface.py:64 | appending rows of one title adds them to that title's count and to no other |
| Loader.BlockPrefixCount | interface.py:64 | among the first `15 * m` rows, film `j` has 15 rows if `j < m` and none otherwise |
| Loader.FallbackFifteenEach | interface.py:64 | each fallback film has exactly 15 rows |
| Loader.BlockTitles | interface.py:64 | rows titled block by block carry exactly the block titles |
| Loader.FallbackTitleSet | interface.py:60-64 | the fallback titles are exactly the ten films |
| Aggregation.Sentiments | interface.py:81 | the score column has one entry per row, in row order |
| Aggregation.Min | interface.py:81 | `min` is a lower bound of the scores and is one of them |
| Aggregation.Max | interface.py:81 | `max` is an upper bound of the scores and is one of them |
| Aggregation.SumBetween | interface.py:81 | a sum of `n` scores between `lo` and `hi` lies between `n * lo` and `n * hi` |
| Aggregation.DivBetween | interface.py:81 | dividing by a positive count keeps a sum's bounds |
| Aggregation.MeanWithin | interface.py:81 | the mean of scores between `lo` and `hi` lies between `lo` and `hi` |
| Aggregation.StatsOf | interface.py:81-88 | one film's row: its title, its number of rows (at least 1), the sum of its scores over that count, and a minimum and maximum that bound every score, are attained and bracket the mean |
| Aggregation.StatTitles | interface.py:81-88 | the title column of `film_stats` has one entry per statistics row |
| Aggregation.Aggregate | interface.py:81-88 | one row per distinct title and no other, in strictly ascending title order, each row being that film's statistics |
| Views.Ranked | interface.py:101 | the ranking is a permutation of `film_stats` in non-increasing mean order; the table at line 121 uses the same order |
| Views.RankedEnds | interface.py:101-116 | the first film of the ranking has the highest mean and the last the lowest, and both are films of `film_stats` |
| Views.FilmSummary | interface.py:111-116 | the metrics exist exactly when there is a film; they give the film count, the first and last films of the ranking, which bound every mean, and a non-negative gap equal to the difference of their means; a single film is both top and bottom with gap 0 |
| Views.Picker | interface.py:128 | the picker offers every title once, in strictly ascending order |
| Views.FindStats | interface.py:134 | the lookup finds a statistics row exactly when the film has one, and returns the first row with that title |
| Views.FilmStat | interface.py:134 | the film's statistics row exists exactly when the film has rows, and it is their statistics |
| Views.Numbered | interface.py:160-161 | the numbering keeps every review in place and numbers them consecutively |
| Views.EntryReviews | interface.py:160-161 | the numbered list holds its reviews in order |
| Views.ReviewList | interface.py:158-161 | the review list holds exactly the film's rows, best score first, numbered 1..n |
| Views.ReviewView | interface.py:131-161 | the page exists exactly when the film has rows; it shows the film's statistics and all its reviews, as many as the count, best score first, numbered 1..n |
| Dashboard.DistinctCardinality | interface.py:111 | a list without repeats has as many elements as its set |
| Dashboard.SameElementsSameLength | interface.py:111 | two lists without repeats and with the same elements have the same length |
| Dashboard.FallbackStatistics | interface.py:74-88 | without the CSV file, `film_stats` has exactly the ten films, each over 15 reviews |
| Dashboard.FallbackRowStatistics | interface.py:60-88 | `film_stats` of the generated fallback rows has exactly the ten films, each over 15 reviews |
| Dashboard.StatsWithin | interface.py:81-88 | if every score lies in `[lo, hi)`, so does every film's minimum, mean and maximum |
| Dashboard.FallbackScoreBounds | interface.py:62 | with draws in `[0.5, 0.53)`, every fallback film's minimum, mean and maximum lie in `[0.5, 0.53)` |
| Dashboard.FallbackPicker | interface.py:128 | without the CSV file, the picker offers exactly the ten films |

## Left out

- The Streamlit page is not modelled: configuration, titles, sidebar, widgets, warning, metrics display and footer. The mode selector is represented only by the two view functions it chooses between.
- The bar chart, the histogram and its density curve are not modelled; they are presentation only.
- `os.path.exists` and `pd.read_csv` are not modelled, because they are file I/O. The parsed file is the `CsvFile` case of `Loader.Source`, and CSV parsing errors are outside the model.
- Titles in a CSV file that are not strings are not modelled. Examples are NaN for an empty cell, which `groupby` drops. Rows carry `string` titles. `TextRepair.Value` models only the pass-through of non-strings by `fix_encoding`.
- `np.random.uniform` is not modelled, because it is randomness. The draws are the parameter `sentiments`, and `Dashboard.DrawnUniformly` states their range.
- `unicodedata.normalize('NFC', ...)` is not modelled, because it is a library routine. It is the parameter `nfc`.
- The standard deviation (`écart_type`) is not modelled, because the model uses exact reals and Dafny has no square root. Python's float rounding is not modelled either, for the same reason.
- The `:.4f` formatting of displayed numbers is not modelled; it is presentation only.
- Missing (NaN) scores in the CSV file are not modelled. pandas' `count`, `mean`, `min` and `max` skip them, so a film's `nombre_critiques` can be smaller than its row count, or 0.
- `st.cache_data` memoisation is not modelled, because it does not change the loaded rows.
- Ordering.SortDesc: the order among equal keys is one fixed order. pandas' default quicksort is not stable and leaves that order unspecified, so only a permutation in non-increasing order is claimed.
- Views.FilmSummary: when several films share the top or bottom mean, which one is named depends on that unspecified tie order. Only the bounds on the means are claimed.
