# Etymology scripts, modelled in Dafny

The repository guesses which of a handful of source languages an English
word is closest to. It translates each word, measures a phonetic distance
to every translation, and picks the nearest one. It then scores the guesses
against the actual etymology with a hand-drawn relatedness graph. Around this
pipeline sit small passes that clean the grapheme-to-phoneme tables it uses.

This project models the core of those scripts:

- `dynamic_score.dfy` (dynamicScore.py): Floyd-Warshall in place on an
  `array2<real>`, the literal six-language graph and its shortest paths,
  and the graded-credit loop with its error cases.
- `transliterate.dfy` (transliterate.py) and `main_script.dfy` (main.py):
  the two nearest-language loops, as methods with loop invariants, proved
  against one declarative choice in `selection.dfy`. The second file also
  models the word-list reader of main.py.
- `clean_greek.dfy` (cleanGreek.py): orth candidates, phon variants, the
  noise test, and the cross product, dedupe and stable sort of `main`.
- `parse_greek.dfy` (parseGreek.py): `clean_orth`, `clean_phon`,
  `split_variants` and `postprocess_rows`.
- `trim.dfy` (trim.py): the per-row split and the dedupe, with the crash on
  a non-string Orth cell as an error result.
- `clean_csv.dfy` (clean.py): `clean` and `sortcsv`, as functions over whole
  tables.
- `translate.dfy` (translate__.py): the lower, cut-at-comma, cut-at-slash
  rule and the four per-language lists.

The shared modules are:

- `text.dfy`: Python's `strip`, `lower`, `replace`, `find` and `split`, and
  the string order.
- `seqs.dfy`: keep-first dedupe, a stable insertion sort with its
  permutation, order and stability lemmas, and the map/concat helpers.
- `patterns.dfy`: each regular expression the scripts use, written out as
  the scan Python's `re` performs.
- `table.dfy`: a DataFrame cell, either a string or a missing value, and
  the rows an index label selects, one or several.
- `wrappers.dfy`: Option and Result.

Foreign services are function parameters: the PanPhon distance `dist` and
the translators. Files are sequences of lines or rows given to the
operations.

## Model

| member | source | states |
|---|---|---|
| DynamicScore.RelaxGuard | dynamicScore.py:13-14 | one update never raises an entry; it changes an entry only to the two-hop sum, and only when neither leg is INF |
| DynamicScore.RelaxThrough | dynamicScore.py:10-14 | the two inner loops for pivot k leave no entry larger; with non-negative weights the array ends as `Round` of its old contents |
| DynamicScore.FloydWarshall | dynamicScore.py:5-15 | the matrix is relaxed in place and the same array is returned (`r == dist`); no entry increases; with non-negative weights the result is `AllPairs` of the input, the shortest route weights of `AllPairsShortestPaths` |
| DynamicScore.AllPairsNonIncreasing | dynamicScore.py:13-14 | no shortest-path entry exceeds the edge weight it started from |
| DynamicScore.AllPairsTriangle | dynamicScore.py:8-14 | with weights in [0, INF] the result satisfies `d[i][j] <= d[i][k] + d[k][j]` for every triple and stays within [0, INF] |
| DynamicScore.AllPairsZeroDiagonal | dynamicScore.py:8-14 | a zero diagonal stays zero |
| DynamicScore.AllPairsSymmetric | dynamicScore.py:18-25 | a symmetric graph gives a symmetric distance matrix |
| DynamicScore.AllPairsIdempotent | dynamicScore.py:5-15 | running the relaxation on its own result changes nothing |
| DynamicScore.Route | dynamicScore.py:8-14 | after the rounds for pivots below k, entry [i][j] is the weight of a route from i to j (the two routes of a successful relaxation joined at the pivot) |
| DynamicScore.AllPairsShortestPaths | dynamicScore.py:5-15 | with weights in [0, INF], entry [i][j] of the result is the weight of a route from i to j, and no route from i to j weighs less |
| DynamicScore.GraphShape | dynamicScore.py:18-25 | the literal graph has weights in [0, INF], a zero diagonal and is symmetric |
| DynamicScore.LiteralGraphDistances | dynamicScore.py:18-26 | the shortest paths of the literal graph are the matrix `Distances`; [3][4] becomes 0.7 through node 2 while [0][3] stays 1 |
| DynamicScore.LiteralShortestPaths | dynamicScore.py:18-26 | every entry of `Distances` is the weight of a route in the literal graph and no route between the same languages weighs less |
| DynamicScore.LoadGraph | dynamicScore.py:18-25 | a fresh 6 x 6 array holding the literal graph |
| DynamicScore.IndexIn | dynamicScore.py:31-32 | `list.index`: the first position of the name, or None (the ValueError) exactly when the name is absent |
| DynamicScore.Credit | dynamicScore.py:33 | `max(1 - d, 0)` is never negative, at most 1 for non-negative d, exactly 1 iff d == 0, and 0 iff d >= 1 |
| DynamicScore.CreditMonotone | dynamicScore.py:33 | credit never grows with distance |
| DynamicScore.ScoreRows | dynamicScore.py:28-36 | the accumulation loop returns `Score` of the matrix: the sum and the percentage, or the first lookup error, or the division-by-zero error on an empty table |
| DynamicScore.RowCreditFailure | dynamicScore.py:31-32 | a row fails exactly when one of its labels is unknown, naming the predicted label first |
| DynamicScore.TallyStops | dynamicScore.py:30-33 | once a row raises, the rest of the table is not consulted |
| DynamicScore.TallyFailure | dynamicScore.py:30-33 | the table fails iff some row has an unknown label; the error names the first such row and its first unknown label |
| DynamicScore.ScoreBounds | dynamicScore.py:33-36 | with non-negative distances the total lies in [0, rows] and the percentage in [0, 1]; an empty table is the division-by-zero error |
| DynamicScore.PerfectTally | dynamicScore.py:30-33 | when every prediction is right, every row earns full credit and the total is the row count |
| DynamicScore.PerfectScore | dynamicScore.py:35-36 | all-correct predictions give a percentage of exactly 1 |
| DynamicScore.BrythonicIsUnknown | dynamicScore.py:27 | the label "Brythonic" is not in the list (which spells "Brittonic"), so such a row fails with the ValueError |
| DynamicScore.Run | dynamicScore.py:17-36 | the script scores the rows against the shortest paths of the literal graph |
| Selection.Choice | transliterate.py:47-62 | the first-strict-minimum scan: -1 when no eligible distance is below 2147483647, otherwise the first eligible index with the smallest distance |
| Selection.ChoiceUnique | transliterate.py:59-61 | at most one index fits the first-strict-minimum description |
| Selection.PyIndex | transliterate.py:63-64 | Python's negative indexing: index -1 names the last element |
| Transliterate.ScanRow | transliterate.py:47-62 | the inner loop's `b` is the declarative choice over the non-skipped cells; `idx` always equals the current column, so the `idx > 5` exit is never taken; a chosen cell is a compared string whose distance is below the sentinel |
| Transliterate.EstimateClosest | transliterate.py:39-64 | the script fails (None) iff the word list and the table differ in length or some word labels two rows; otherwise one entry per word, in order, in both lists, `closestWord[k]` is `languages[b]` of word k's own row and `closest[k]` is that row's cell in that column |
| Patterns.SplitStressedOr | cleanGreek.py:24 | a stress mark is a word character, so `\bor\b` does not match inside "ˈor" and the variant stays whole |
| Transliterate.SkippedNeverChosen | transliterate.py:44-54 | a blank, "-" or missing cell is never chosen |
| Transliterate.NearestIsFirstStrictMin | transliterate.py:59-61 | the chosen column is strictly nearer than every compared column before it and no farther than any after it |
| Transliterate.NothingComparedReportsLast | transliterate.py:48-64 | when nothing is compared or nothing is below the sentinel, b is -1 and "Middle French" is reported |
| Transliterate.Reported | transliterate.py:64 | the reported name is always one of the four languages |
| MainScript.ReadWords | main.py:11-15 | the first 250 lines that pass the keep test, newline included; None when the file has fewer, where the script never ends |
| MainScript.Kept | main.py:14 | kept lines pass `len(line) > 1 or line in ('a', 'i')` and come from the file |
| MainScript.ReadWordsShape | main.py:12-15 | the word list has exactly 250 entries, each passing the keep test |
| MainScript.ScanRow | main.py:80-89 | the inner loop's `b` is the choice over all six columns, none skipped |
| MainScript.EstimateClosest | main.py:53-91 | one entry per word, in order; `closestWord[k]` is the integer b of the scan over what `df.loc[i]` yields for word k, and `closest[k]` is `df.at[i, languages[b]]`, a cell or a Series |
| MainScript.UniqueWordsOwnRow | main.py:79-91 | with no repeated word, each word scans its own row and `closest[k]` is that row's cell in the chosen column |
| MainScript.RepeatedWordScansNames | main.py:80-90 | a word that labels two rows scans the six column names instead of its translations, and `closest` gets a Series with one cell per row it labels |
| MainScript.NearestIsFirstStrictMin | main.py:80-88 | b is -1 iff no distance is below 2147483647; otherwise b is the first column with the strictly smallest distance |
| MainScript.NothingNearReportsGreek | main.py:80-90 | with nothing below the sentinel, b is -1 and the Greek cell is reported |
| CleanGreek.NormalizeText | cleanGreek.py:26-32 | None gives "", anything else is stripped and no longer than before |
| CleanGreek.NormalizeTextIdempotent | cleanGreek.py:26-32 | normalising again, as the extractors do, changes nothing |
| CleanGreek.ShortRuns | cleanGreek.py:53 | exactly the runs of one to three characters |
| CleanGreek.ExtractOrthCandidates | cleanGreek.py:34-68 | the method, with its seen-set loop, returns `OrthCandidates` |
| CleanGreek.OrthCandidatesRejected | cleanGreek.py:38-44 | empty input, or input whose lowercase starts with "lo", "li", "note" or "^", has no candidates |
| CleanGreek.OrthCandidatesSlash | cleanGreek.py:47-49 | a /.../ group gives exactly one candidate, the first group's non-empty inner text |
| CleanGreek.OrthCandidatesGreek | cleanGreek.py:52-62 | otherwise the Greek runs of length 1 to 3, once each in first-occurrence order, with longer runs dropped |
| CleanGreek.OrthCandidatesFallback | cleanGreek.py:65-68 | with no group and no short run, the result is `[orth]` iff the text is 1 to 3 token characters, else [] |
| CleanGreek.OrthCandidatesClean | cleanGreek.py:34-68 | no candidate is empty or repeated |
| CleanGreek.AppendParts | cleanGreek.py:84-87 | the split-strip-keep loop for one group appends the non-empty stripped pieces in order |
| CleanGreek.AppendGroups | cleanGreek.py:82-94 | one findall loop appends the pieces of every group in order |
| CleanGreek.FallbackLoop | cleanGreek.py:99-109 | the fallback loop returns `FallbackVariants`: non-empty stripped pieces that are not English commentary |
| CleanGreek.PolishOne | cleanGreek.py:114-119 | the chain of strips and replaces on one variant |
| CleanGreek.CleanVariants | cleanGreek.py:112-122 | the final loop keeps the non-empty polished variants, each once, in order |
| CleanGreek.ExtractPhonVariants | cleanGreek.py:70-122 | the method returns `PhonVariants` |
| CleanGreek.FallbackOnlyWithoutGroups | cleanGreek.py:81-97 | the whole-cell fallback is used only when the bracketed and slashed groups gave no variant; otherwise those variants are used |
| CleanGreek.FallbackHasNoCommentary | cleanGreek.py:104-108 | no fallback variant is an English word |
| CleanGreek.PhonVariantsClean | cleanGreek.py:112-122 | the variants are non-empty and none is repeated |
| CleanGreek.EnglishCountAll | cleanGreek.py:138-143 | the counter equals the number of variants iff every variant looks English |
| CleanGreek.IsNoiseRow | cleanGreek.py:124-145 | the counting method decides `IsNoise`: no candidates; or long ASCII candidates and no variants; or non-empty variants that all look English |
| CleanGreek.CrossMembers | cleanGreek.py:179-181 | a pair is in the cross product iff its orth is a candidate and its phon a variant |
| CleanGreek.AppendPairs | cleanGreek.py:180-181 | the inner loop appends (o, p) for every variant, in order |
| CleanGreek.AppendCross | cleanGreek.py:179-181 | the nested loops append the orth-major cross product |
| CleanGreek.AppendRow | cleanGreek.py:160-181 | one record appends its pairs, or none when it is empty or noise |
| CleanGreek.BuildMappings | cleanGreek.py:159-198 | the record loop, the seen-set loop and the sort produce `Output` |
| CleanGreek.RowPairsMembers | cleanGreek.py:172-181 | a record yields a pair iff it is not noise and the pair is candidate x variant |
| CleanGreek.AllPairsMembers | cleanGreek.py:159-181 | the collected pairs are exactly those of the records that contribute them |
| CleanGreek.OutputSpec | cleanGreek.py:183-198 | the output has no repeated pair, is ordered longest orth first, holds exactly the collected pairs, and keeps first-occurrence order among pairs of equal orth length |
| ParseGreek.CleanOrth | parseGreek.py:30-33 | the result is stripped and no longer than the input |
| ParseGreek.CleanOrthIdempotent | parseGreek.py:30-33 | cleaning a cleaned orth changes nothing |
| ParseGreek.CleanPhon | parseGreek.py:35-43 | the result is stripped and holds no `"`, `'`, `/` or en dash |
| ParseGreek.Unparen | parseGreek.py:55-56 | a non-empty result neither starts with `(` nor ends with `)` |
| ParseGreek.KeepPieces | parseGreek.py:50-58 | every kept piece is non-empty and unwrapped |
| ParseGreek.SplitVariants | parseGreek.py:45-59 | the loop returns `Variants`, the kept pieces in order |
| ParseGreek.VariantsShape | parseGreek.py:47-58 | every variant is non-empty, does not start with `(` or end with `)`, and holds no one-character separator |
| ParseGreek.AppendVariants | parseGreek.py:186-196 | the variant loop appends (orth, stripped v) for every variant when the orth passes the Latin-word and length tests, and nothing otherwise |
| ParseGreek.AppendRow | parseGreek.py:178-196 | one row appends its pairs, or none when its orth is a placeholder |
| ParseGreek.PostprocessRows | parseGreek.py:175-205 | the method returns `Postprocess` of the rows |
| ParseGreek.RowOutMembers | parseGreek.py:179-196 | a row yields a pair iff its stripped orth is kept and the pair's phon is one of its stripped variants |
| ParseGreek.PostprocessSpec | parseGreek.py:175-205 | each pair at most once, exactly the pairs of the kept rows; no output orth is empty, a placeholder, a Latin-only word or longer than 6, and both sides are stripped |
| Trim.FirstNonString | trim.py:7-8 | the index of the first row whose Orth is not a string, or -1 when all are |
| Trim.TrimTable | trim.py:7-25 | the script fails iff some Orth cell is not a string, naming the first such row |
| Trim.AppendVariants | trim.py:19-22 | the variant loop appends (orth, v) for every non-empty stripped piece, in order |
| Trim.AppendRow | trim.py:8-22 | one row appends its orth with each of its variants |
| Trim.TrimRows | trim.py:6-25 | the row loop and the dedupe return `TrimTable` |
| Trim.PiecesClean | trim.py:12-21 | every variant is non-empty, stripped, and holds none of `/`, `"`, `~`, `,` |
| Trim.RowOutMembers | trim.py:8-22 | a row yields a pair iff the orth is its stripped lower-case Orth and the phon one of its variants |
| Trim.TrimTableSpec | trim.py:7-25 | on success: no repeated row, exactly the pairs of the input rows, orths stripped and lower-case, phons non-empty, stripped and free of the four removed characters |
| CleanCsv.NormalizeClean | clean.py:10-11 | a normalised orth is stripped and lower-case, a normalised phon stripped |
| CleanCsv.KeepShort | clean.py:15 | a row yields at most one output row |
| CleanCsv.ShortRowsLength | clean.py:15 | the filter never adds rows |
| CleanCsv.ShortRowsMembers | clean.py:10-15 | a row survives iff it is a normalised input row whose orth has at most 3 characters |
| CleanCsv.CleanTableSpec | clean.py:5-29 | the output is a rearrangement of the filtered rows and no longer than the input; members are exactly the normalised short rows, stripped and lower-case; orth length never increases down the table |
| CleanCsv.NanNormalized | clean.py:10 | a missing cell normalises to the three-letter orth "nan" |
| CleanCsv.MissingOrthKept | clean.py:10-15 | a row with a missing Orth is kept, with orth "nan" |
| CleanCsv.OrthDescIpaAscIsOrder | clean.py:37 | Orth descending, then IPA ascending, is a total, transitive and antisymmetric order |
| CleanCsv.LengthSortOverridden | clean.py:35-37 | the length sort of line 36 has no effect on the result: the second sort alone decides the order |
| CleanCsv.FirstPerOrthMembers | clean.py:40 | `drop_duplicates(subset='Orth')` keeps one row per orth, the first, and drops no orth |
| CleanCsv.FirstPerOrthOfSorted | clean.py:37-40 | on the sorted table the kept row of an orth has the smallest IPA for that orth |
| CleanCsv.SortCsvSpec | clean.py:31-44 | orths strictly descending, hence unique; every output row is an input row; every input orth appears; each IPA is the smallest for its orth |
| Translate.CutAt | translate__.py:23-26 | the cut is a prefix without c, and it stops at the first c |
| Translate.TruncateSpec | translate__.py:21-26 | the stored text is lower-case, holds no `,` or `/`, and is the prefix of the lower-cased translation that ends at its end or at its first `,` or `/` |
| Translate.TruncateIdempotent | translate__.py:21-26 | applying the rule again changes nothing |
| Translate.TruncateTranslation | translate__.py:21-26 | the step-by-step reassignment computes `Truncate` |
| Translate.TranslateAll | translate__.py:20-27 | one stored translation per English word, in word order |
| Translate.BuildColumns | translate__.py:18-63 | the four lists under their column names, each one entry per word; "Old English" holds the Dutch translations |

## Left out

- Reading and writing files (CSV, Excel, text) and `df.insert` column placement. Tables and word lists are sequences given to the operations, and results are returned.
- The word-list loops of transliterate.py:28-33 and translate__.py:9-14 are not modelled. They strip the newline and keep words longer than one character; only the main.py reader is modelled (`MainScript.ReadWords`).
- The translation service, Epitran and PanPhon are foreign code. The translators and the distance are function parameters. Epitran's result is never used by the distance call.
- Unicode NFC normalisation is the identity. `Lower` covers ASCII, Latin-1 and the basic Greek capitals only, and the final sigma is not modelled: a capital sigma always lowers to σ, where Python gives ς at the end of a word. `\w` is Python's class written out for U+0000–03FF and U+1D00–1FFF, the blocks the tables use; characters of other blocks count as non-word characters. `\s` is written out as an explicit class.
- The featuretable monkey-patch of main.py:60-71 and transliterate.py:13-24 is library plumbing.
- The scraping and HTML code of parseGreek.py is not modelled: `find_table_mappings`, `find_span_ipa_mappings`, `find_inline_mappings_by_regex`, `flatten_columns` and `main`. Neither are parse.py, translation.py, addindex.py and temp.py.
- The graph weights are exact reals, not IEEE-754 doubles.
- DynamicScore.FloydWarshall: the exact result (`AllPairs`) is promised only for non-negative weights. With a negative weight, the in-place rounds read pivot entries that were already updated. "No entry increases" holds for all weights.
- CleanCsv.CleanTableSpec: pandas' `sort_values` at clean.py:26 is not stable. The model sorts stably, and the contract promises only the length order and the permutation, not the order among ties.
- CleanGreek.BuildMappings: the `sys.exit(0)` when no pair is found (cleanGreek.py:193-195) is not modelled. The method returns the empty list instead.
- MainScript.ReadWords: readline returning "" forever at end of file, an endless loop, is the result None.
- MainScript.EstimateClosest: each row's cells are taken in `languages` order. main.py reads `df.loc[i]` by position, so the script is right only when the columns are in that order.
- The `df.at` lookup on a repeated word is modelled only as far as the result goes: in transliterate.py the blacklist test on a Series raises, which is the result None, and in main.py the Series is stored as it is (`MainScript.Value`). The ValueError message is not modelled.
- CleanGreek.IsNoiseRow: the `raw_orth` and `raw_phon` arguments are never consulted by the source, and the method ignores them too.
- parseGreek.py:189 tests the Greek block only on the original orth. Because a string matching `[A-Za-z\s\-]{4,}` cannot hold a Greek letter, that second test never changes the outcome. It is modelled as written (`ParseGreek.IsLatinWord`).
- ParseGreek.PostprocessSpec: does not promise a non-empty phon. A piece such as "( )" becomes " " once its parentheses are removed and passes `if p:` (parseGreek.py:57). postprocess_rows then strips it and keeps (orth, "") (parseGreek.py:187, 196). The model does the same.
- `sortcsv` reads with `names=[...]`, so a missing cell there would be NaN. The model takes its cells as strings.
- The column-header clean-up of clean.py:7 is not modelled, since columns are addressed by role.
