# Telecom X cleaning core, modelled in Dafny

This project models the table-cleaning core of `src/etl.py` and proves
properties of that model. The core is the column-name standardizer
(`standardize_columns`), the numeric coercer for Brazilian-formatted text
(`coerce_numeric`), the missing-value summary (`summarize_missing`), the
basic treatment (`treat_basic`: duplicate removal, coercion, summary, fill,
yes/no normalisation) and the derived daily-charge column
(`create_contas_diarias`).

A pandas frame is a `Tables.Table`: a row count and an ordered sequence of
columns. Each column has a label, a kind and one cell per row. The kind is
`Numeric` (pandas kinds `biufc`) or `Object`. A cell is `Missing` (NaN), `Num`
(a real number) or `Str` (text). The frame is only read and rebuilt, never
shared, so every operation is a function on these values. Where the source
loops over columns (the coercion loop and the two loops of `treat_basic`),
the model has a method. That method loops over column positions and is proved
equal to a specification function.

Modules, one per concern. Each names the functions that define the model;
their properties are stated by the lemmas in the "## Model" table, named in
parentheses.

- `Chars`: Python's whitespace class, `str.lower` on ASCII and Latin-1
  (`Lower`), and one-character `str.replace` (`Replace`, src/etl.py:35;
  `ReplaceChars`, `ReplaceAbsent`).
- `Standardize`: `strip` (`Strip`, src/etl.py:33; `StripRemovesSpace`),
  `re.sub(r"\s+", "_")` (`CollapseSpaces`, src/etl.py:34;
  `CollapseRun`, `CollapseSpacesNoSpace`), the `clean` helper (`CleanName`, src/etl.py:32-36;
  `CleanNameCanonical`, `CleanNameFixedIff`) and the rename of every column
  (`StandardizeColumns`).
- `Decimal`: the numeric literals `pd.to_numeric` is modelled to accept
  (`ParseUnsigned` and `ParseDecimal`, src/etl.py:54; `ParseUnsignedIff`,
  `ParseDecimalIff`, `NatTextRoundTrip`).
- `Coerce`: `Render` (`astype(str)`, src/etl.py:49), `DropCurrencyClass`
  (src/etl.py:50; `DropCurrencyClassOutput`), `Rewrite` (the three
  replacements, src/etl.py:50-52; `RewriteSinglePass`, `RewriteOutput`),
  `ParseCell` (`to_numeric` on one cell, src/etl.py:54; `ParseCellIff`),
  `CoerceColumn`, the column choice `Targeted` (src/etl.py:42-44;
  `CoerceDefaultTouchesOnlyObjects`) and the `CoerceNumeric` loop.
- `Dedup`: `duplicated()` (`IsFirst`, `FirstRows`, `CountDuplicates`,
  `DuplicatesRemoved`, src/etl.py:69) and `drop_duplicates()` (`Deduplicated`,
  src/etl.py:70; `DeduplicatedDistinct`, `DeduplicatedCovers`).
- `Summary`: `summarize_missing`: the line of one column (`EntryOf`,
  src/etl.py:60-61; `EntryShare`), the sort key (`Key`, src/etl.py:62;
  `SortDesc`) and `SummarizeMissing`.
- `Impute`: `median()` (`Median`, over an insertion sort, src/etl.py:84;
  `MedianHalves`, `MedianBounds`), the fill of one column (`FillColumn`,
  src/etl.py:82-87; `FillColumnOutcome`) and the fill loop (`FillMissing`,
  proved to return `Filled`; `FilledFrame`).
- `YesNo`: the nine-label map (`Labels`, src/etl.py:90), the column test
  (`MentionsLabel`, src/etl.py:92-94; `MapYesNoColumn`) and the normalisation
  loop (`NormalizeYesNo`, proved to return `NormalizedYesNo`;
  `NormalizedFrame`).
- `Derived`: `create_contas_diarias`, with `Result.Failure` for the
  `TypeError` that dividing text raises.
- `Pipeline`: `treat_basic` (`TreatBasic`, proved to return `TreatedFrame`
  and `TreatedReport`; `TreatedProperties`, `ReportProperties`).

Four behaviours of the code are easy to miss, and the model follows the
code in each:

- A column that fails to parse is not left untouched. It keeps the
  rewritten text: every `R`, `$`, whitespace and `.` is deleted, and every
  `,` becomes `.`. For example, `"Rio"` becomes `"io"` (`CoerceRioExample`).
- After the pipeline, a numeric column with no value at all still holds
  missing cells. Its median is NaN, and filling with NaN changes nothing.
- The daily column replaces an existing `contas_diarias` column in place. It
  is appended only when no such column exists.
- In `treat_basic`, coercion renders every missing cell of a text column as
  the text `"nan"`. So the fill with `"Desconhecido"` never has anything to
  fill (`CoercedObjectsComplete`).

## Model

| member | source | states |
|---|---|---|
| `Chars.ToLower` | src/etl.py:36 | the result is never an upper-case letter; it is whitespace, `%` or `$` exactly when the input is; non-upper-case characters are kept |
| `Chars.Lower` | src/etl.py:36 | same length; no upper-case letter is left; every character that is not upper case is kept at its position |
| `Chars.ReplaceChars` | src/etl.py:35 | every character of a replacement result is an input character other than the pattern, or a character of the replacement |
| `Chars.ReplaceAbsent` | src/etl.py:35 | replacing a character that does not occur changes nothing |
| `Chars.ReplaceAppend` | src/etl.py:35 | replacement distributes over concatenation |
| `Standardize.TrimStart` | src/etl.py:33 | the result is a suffix of the input that does not start with whitespace, and it is shorter whenever the input starts with whitespace |
| `Standardize.TrimStartDropsSpace` | src/etl.py:33 | every character dropped in front is whitespace |
| `Standardize.TrimEnd` | src/etl.py:33 | the result is a prefix of the input and does not end with whitespace |
| `Standardize.TrimEndDropsSpace` | src/etl.py:33 | every character dropped at the end is whitespace |
| `Standardize.StripRemovesSpace` | src/etl.py:33 | `strip` returns a contiguous slice of the input whose first and last characters are not whitespace, and everything outside that slice is whitespace |
| `Standardize.StripKeepsMiddle` | src/etl.py:33 | the stripped text is the slice of the input that starts after the leading whitespace |
| `Standardize.StripEnds` | src/etl.py:33 | a non-empty stripped text neither starts nor ends with whitespace |
| `Standardize.StripDropsTail` | src/etl.py:33 | everything after the kept slice is whitespace |
| `Standardize.StandardizeColumns` | src/etl.py:31-38 | every column is renamed to the cleaned form of its own label; row count, kinds, cells and column order are kept; every new label is canonical (no whitespace, `%`, `$` or upper-case letter) |
| `Standardize.CollapseSpacesNoSpace` | src/etl.py:34 | after collapsing, no whitespace is left |
| `Standardize.NoSpaceCons` | src/etl.py:34 | putting a non-whitespace character in front of whitespace-free text keeps it whitespace-free |
| `Standardize.CleanNameCanonical` | src/etl.py:32-36 | every cleaned name is canonical |
| `Standardize.ReplacementsClean` | src/etl.py:33-35 | after strip, collapse and the two replacements, no whitespace, `%` or `$` is left |
| `Standardize.ReplacementsKeepClean` | src/etl.py:35 | the two replacements add no whitespace and leave no `%` or `$` |
| `Standardize.LowerKeepsClean` | src/etl.py:36 | lowering text without whitespace, `%` or `$` gives a canonical name |
| `Standardize.CollapseSpacesIdentity` | src/etl.py:34 | a string without whitespace is left as it is |
| `Standardize.CanonicalIsFixed` | src/etl.py:32-36 | a canonical name is left as it is |
| `Standardize.CleanNameFixedIff` | src/etl.py:32-36 | a name is unchanged by cleaning if and only if it is canonical |
| `Standardize.CleanNameIdempotent` | src/etl.py:32-36 | cleaning twice equals cleaning once |
| `Standardize.StandardizeIdempotent` | src/etl.py:31-38 | standardizing a frame twice equals standardizing it once |
| `Standardize.TrimStartRun` | src/etl.py:33-34 | stripping the front of a whitespace run followed by a non-space character (or nothing) leaves exactly what follows the run |
| `Standardize.CollapseRun` | src/etl.py:34 | a maximal run of whitespace of any length becomes one `_`; the whitespace-free text before it is kept and the text after it is collapsed in turn |
| `Standardize.CollapseRunHead` | src/etl.py:34 | text that starts with a whitespace run collapses to `_` followed by the collapse of what comes after the run |
| `Standardize.CollapseSpacesPrefix` | src/etl.py:34 | a whitespace-free prefix passes through collapsing unchanged |
| `Standardize.StripKeeps` | src/etl.py:33 | `word + " " + ch` with no outer whitespace is kept by `strip` |
| `Standardize.CollapseSpaceBefore` | src/etl.py:34 | a single space before a character becomes `_` |
| `Standardize.CollapseTail` | src/etl.py:34 | `word + " " + ch` collapses to `word + "_" + ch` |
| `Standardize.SpaceCharCollapsed` | src/etl.py:33-34 | the same after `strip` |
| `Standardize.PercentCollapsed` | src/etl.py:33-34 | `word + " %"` strips and collapses to `word + "_%"` |
| `Standardize.ReplacePercentTail` | src/etl.py:35 | `word + "_%"` becomes `word + "_pct"` when `word` has no `%` |
| `Standardize.PercentReplaced` | src/etl.py:35 | both replacements turn `word + "_%"` into `word + "_pct"` when `word` has no `%` or `$` |
| `Standardize.CleanPercentSuffix` | src/etl.py:32-36 | `word + " %"` cleans to `lower(word + "_pct")` |
| `Standardize.CleanPctSuffix` | src/etl.py:32-36 | `word + "_pct"` cleans to `lower(word + "_pct")` |
| `Standardize.NamesCanCollide` | src/etl.py:37 | two different labels (`word %` and `word_pct`) clean to the same label: the rename does not guard against collisions |
| `Decimal.DotIndex` | src/etl.py:54 | the position of the first `.`, or the length |
| `Decimal.DotIndexAfter` | src/etl.py:54 | the first `.` of `a + b`, when `a` has none, is found in `b` |
| `Decimal.UnsignedFraction` | src/etl.py:54 | `<whole>.<frac>` parses to its decimal value |
| `Decimal.UnsignedAlphabet` | src/etl.py:54 | an accepted unsigned literal has a digit and only digits and `.` |
| `Decimal.OneDot` | src/etl.py:54 | an accepted unsigned literal has at most one `.` |
| `Decimal.LiteralParses` | src/etl.py:54 | every unsigned literal (a digit, only digits and `.`, at most one `.`) is accepted |
| `Decimal.ParseUnsignedIff` | src/etl.py:54 | an unsigned text is accepted if and only if it is such a literal |
| `Decimal.ParseDecimalIff` | src/etl.py:54 | a text is accepted if and only if it is such a literal with an optional leading sign |
| `Decimal.ParseDecimalAlphabet` | src/etl.py:54 | an accepted literal has a digit, and only digits, `.` and a leading sign |
| `Decimal.RejectsForeignChar` | src/etl.py:54 | any other character makes the parse fail |
| `Decimal.NatText` | src/etl.py:54 | the decimal text of a natural number is a non-empty digit string |
| `Decimal.NatTextValue` | src/etl.py:54 | that text denotes the number |
| `Decimal.NoDotIndex` | src/etl.py:54 | a digit string has no `.` |
| `Decimal.NatTextUnsigned` | src/etl.py:54 | the text of `n` parses to `n` |
| `Decimal.DigitChar` | src/etl.py:54 | the character of a digit value is a digit with that value |
| `Decimal.Pow10` | src/etl.py:54 | a power of ten is at least 1, so a fraction's divisor is never zero |
| `Decimal.NatTextRoundTrip` | src/etl.py:54 | parsing the text of `n`, or `-` followed by it, gives `n` or `-n` |
| `Coerce.DropCurrencyClassOutput` | src/etl.py:50 | no `R`, `$` or whitespace survives the regex deletion |
| `Coerce.DropCurrencyClassAppend` | src/etl.py:50 | the regex deletion distributes over concatenation |
| `Coerce.RewriteEachAppend` | src/etl.py:50-52 | the one-pass rewriting distributes over concatenation |
| `Coerce.RewriteSinglePass` | src/etl.py:50-52 | the source's three passes equal an independent one-pass, per-character definition |
| `Coerce.RewriteOutput` | src/etl.py:50-52 | after rewriting, no `R`, `$`, whitespace or `,` is left |
| `Coerce.RewriteIdentity` | src/etl.py:50-52 | text without any rewritten character (such as a digit string) is left as it is |
| `Coerce.RewriteEachIdentity` | src/etl.py:50-52 | the same for the one-pass definition |
| `Coerce.RewriteEachThousands` | src/etl.py:50-52 | `<d>.<d>,<d>` becomes `<d><d>.<d>` under the one-pass rewriting |
| `Coerce.RewriteThousands` | src/etl.py:50-52 | `<d>.<d>,<d>` becomes `<d><d>.<d>` under the source's three passes |
| `Coerce.RewriteLocalizedAmount` | src/etl.py:50-52 | `R$ <d>.<d>,<d>` becomes `<d><d>.<d>` |
| `Coerce.RewriteCurrencyExample` | src/etl.py:50-52 | `"R$ 1.234,56"` becomes `"1234.56"` |
| `Coerce.RewriteDropsEveryR` | src/etl.py:50 | every `R` is deleted, not only the currency prefix: `"Rio"` becomes `"io"` |
| `Coerce.ParseFraction` | src/etl.py:54 | a rewritten decimal literal parses to its value |
| `Coerce.ThousandsCell` | src/etl.py:49-54 | a thousands-and-decimal-comma cell parses to its value |
| `Coerce.LettersUnchanged` | src/etl.py:50-54 | lower-case words are kept by rewriting and rejected by the parse |
| `Coerce.ParseCellIff` | src/etl.py:54 | a cell parses if and only if it is empty or a decimal literal, and it is read as missing exactly when empty |
| `Coerce.NanStaysText` | src/etl.py:49-54 | the text `"nan"` is kept by rewriting and rejected by the parse |
| `Coerce.RioCell` | src/etl.py:49-54 | `"Rio"` is rewritten to `"io"`, which does not parse |
| `Coerce.Rewritten` | src/etl.py:49-52 | one rewritten text per cell |
| `Coerce.CoerceColumn` | src/etl.py:47-56 | label and length kept, result well formed |
| `Coerce.CoerceColumnOutcome` | src/etl.py:47-56 | the column turns numeric if and only if every rewritten cell parses, and then holds the parsed values; otherwise it holds the rewritten text |
| `Coerce.CoercedTextHasNoMissing` | src/etl.py:49-56 | a column that stays text holds only text; a missing cell forces text and becomes `"nan"` |
| `Coerce.CoerceNaturals` | src/etl.py:47-54 | a text column of natural numbers becomes the numeric column of those numbers |
| `Coerce.CoerceAmounts` | src/etl.py:47-54 | a column of amounts such as `"1.234,56"` becomes numeric with their values |
| `Coerce.CoerceWordsUnchanged` | src/etl.py:47-56 | a column of lower-case words stays text, unchanged |
| `Coerce.CoerceRioExample` | src/etl.py:47-56 | `["Rio"]` stays text but becomes `["io"]` |
| `Coerce.Coerced` | src/etl.py:40-57 | the returned frame is well formed, with the same rows and labels |
| `Coerce.CoerceNumeric` | src/etl.py:40-57 | the loop returns exactly `Coerced`: each targeted column coerced, every other column kept |
| `Coerce.CoerceDefaultTouchesOnlyObjects` | src/etl.py:42-43 | with no candidate list, numeric columns are kept and every `object` column is coerced |
| `Tables.CountMissingBounds` | src/etl.py:60 | the missing count is at most the length, and zero exactly when no cell is missing |
| `Dedup.FirstRows` | src/etl.py:69-70 | the kept rows, strictly increasing, are exactly the first occurrences |
| `Dedup.CountDuplicates` | src/etl.py:69 | the duplicates counted among the first `n` rows and the first occurrences among them add up to `n` |
| `Dedup.DuplicatesRemoved` | src/etl.py:69-71 | rows kept by `drop_duplicates` plus duplicates counted equal the input rows |
| `Dedup.Select` | src/etl.py:70 | the selected frame has the chosen rows in order, with the labels and kinds kept |
| `Dedup.Deduplicated` | src/etl.py:70 | well formed, no more rows, same labels and kinds |
| `Dedup.DeduplicatedDistinct` | src/etl.py:70 | no two kept rows are equal |
| `Dedup.HasFirstOccurrence` | src/etl.py:69 | every row equals a first occurrence at or before it |
| `Dedup.DeduplicatedCovers` | src/etl.py:70 | every input row is present in the result |
| `Dedup.KeptIn` | src/etl.py:70 | any one input row is present in the result |
| `Dedup.KeptAt` | src/etl.py:70 | for every input row, a position in the result holding an equal row |
| `Dedup.DistinctUnchanged` | src/etl.py:69-70 | a frame with distinct rows is unchanged, with no duplicate counted |
| `Dedup.AllFirstIdentity` | src/etl.py:70 | then every row is kept, at its own position |
| `Dedup.DeduplicateIdempotent` | src/etl.py:69-70 | dropping duplicates twice equals dropping them once; the second pass counts none |
| `Summary.InsertDesc` | src/etl.py:62 | insertion keeps the order non-increasing and adds exactly one line |
| `Tables.ConsInsert` | src/etl.py:62 | for both insertion sorts (the summary's order and the median's): putting the head back in front of an insertion result gives the input plus the inserted element, and every element comes from one of them |
| `Summary.ConsDescending` | src/etl.py:62 | a larger head keeps a descending sequence descending |
| `Summary.SortDesc` | src/etl.py:62 | a permutation in non-increasing order of share, NaN last |
| `Summary.SummarizeMissing` | src/etl.py:59-63 | one line per column, a permutation of the column lines, in non-increasing order of share |
| `Summary.SummaryLines` | src/etl.py:59-63 | each line belongs to a column and each column has its line |
| `Summary.EntryShare` | src/etl.py:60-61 | the share is the count over the rows, between 0 and 1, 0 if and only if nothing is missing, 1 if and only if everything is, NaN for a frame without rows |
| `Summary.ShareArithmetic` | src/etl.py:61 | a count over a positive row count lies in [0, 1], times the rows gives the count back, and is 0 or 1 exactly at the extremes |
| `Summary.CountMissingAll` | src/etl.py:60 | the count equals the length if and only if every cell is missing |
| `Summary.SummaryShares` | src/etl.py:61-62 | the summary's shares lie in [0, 1] and do not increase; they are all NaN for a frame without rows |
| `Impute.PresentValues` | src/etl.py:84 | the values `median()` sees: each number occurs as often as it occurs in the column, and nothing else occurs |
| `Impute.Insert` | src/etl.py:84 | insertion keeps a sequence sorted and adds exactly one value |
| `Impute.ConsSorted` | src/etl.py:84 | a smaller head keeps a sorted sequence sorted |
| `Impute.SortReals` | src/etl.py:84 | a sorted permutation |
| `Impute.CountsInsert` | src/etl.py:84 | insertion adds one to the count on the value's side of any bound |
| `Impute.CountsSort` | src/etl.py:84 | sorting keeps the counts on either side of any bound |
| `Impute.PrefixAtMost` | src/etl.py:84 | a prefix at most `m` is counted |
| `Impute.SuffixAtLeast` | src/etl.py:84 | a suffix at least `m` is counted |
| `Impute.MiddleOddHalves` | src/etl.py:84 | for an odd count, half the sorted values lie on each side of the middle one |
| `Impute.MiddleEvenHalves` | src/etl.py:84 | for an even count, half the sorted values lie on each side of the mean of the two middle ones |
| `Impute.MedianHalves` | src/etl.py:84 | at least half of the values are at most the median, and at least half are at least it |
| `Impute.MedianBounds` | src/etl.py:84 | the median lies between the least and the greatest value |
| `Impute.MedianOfEqual` | src/etl.py:84 | the median of equal values is that value |
| `Impute.PresentValuesEmpty` | src/etl.py:83-84 | no values are present if and only if the column holds no number |
| `Impute.FillWith` | src/etl.py:84-87 | `fillna`: same length, present cells kept, each missing cell becomes the fill value, and no missing cell is left when the fill value is not NaN |
| `Impute.FillColumnOutcome` | src/etl.py:81-87 | label, kind and present cells are kept; missing numeric cells get the median and missing text cells get `"Desconhecido"`; missing cells survive only in a non-empty numeric column with no value, which is left as it is |
| `Impute.NumericFillOutcome` | src/etl.py:82-84 | a numeric column with a number gets the median in every missing cell and keeps no missing cell; an all-missing one is left as it is |
| `Impute.FillWithCount` | src/etl.py:84-87 | filling with a value that is not NaN leaves no missing cell |
| `Impute.FillOne` | src/etl.py:82-87 | the branches of one loop iteration compute the fill of that column |
| `Impute.FillColumnIdempotent` | src/etl.py:81-87 | filling twice equals filling once |
| `Impute.FillMissing` | src/etl.py:81-87 | the fill loop returns every column filled |
| `Impute.FilledFrame` | src/etl.py:81-87 | the filled frame is well formed with the same labels and kinds; missing cells survive only in all-missing numeric columns; text-only columns stay text-only |
| `YesNo.MapCell` | src/etl.py:90-95 | a label becomes its number (0 or 1); any other cell is kept |
| `YesNo.MapYesNoColumn` | src/etl.py:91-95 | numeric columns and columns without a label are kept; otherwise labels become numbers, other cells are kept, and the column turns numeric if and only if no text is left |
| `YesNo.LabelsAreCaseSensitive` | src/etl.py:90-94 | `"sim"` and `"nao"` are not labels; such a column is kept |
| `YesNo.SimNaoExample` | src/etl.py:90-95 | `["Sim", "Não"]` becomes the numeric column `[1, 0]` |
| `YesNo.MixedExample` | src/etl.py:90-95 | `["Sim", "Talvez"]` becomes `[1, "Talvez"]` and stays `object` |
| `YesNo.MapYesNoIdempotent` | src/etl.py:91-95 | normalising twice equals normalising once |
| `YesNo.NormalizeYesNo` | src/etl.py:91-95 | the loop returns every column normalised |
| `YesNo.NormalizedFrame` | src/etl.py:91-95 | the frame stays well formed with the same labels and rows; each column has missing cells exactly when it had them before |
| `Derived.IndexOf` | src/etl.py:101 | the position of the first column with that label, or none if there is no such column |
| `Derived.IndexOfUnique` | src/etl.py:101 | with unique labels, a column is found at its own position |
| `Derived.DailyCell` | src/etl.py:102 | a missing cell stays missing; a number becomes one whose 30-fold is the number |
| `Derived.DailyColumn` | src/etl.py:102 | fails if and only if the column holds text; otherwise it is labelled `contas_diarias`, same kind, each value one thirtieth, missing cells kept |
| `Derived.CreateContasDiarias` | src/etl.py:99-103 | an absent monthly column returns the frame as it is; text in it raises; otherwise the daily column replaces `contas_diarias` in place or is appended last, every other column is kept, and labels stay unique |
| `Derived.ReplacedDaily` | src/etl.py:101-102 | overwriting the existing `contas_diarias` column keeps the frame well formed with unique labels, and the label is found at that position |
| `Derived.AppendedDaily` | src/etl.py:101-102 | appending a new `contas_diarias` column keeps the frame well formed with unique labels, and the label is found last |
| `Derived.CreateContasDiariasIdempotent` | src/etl.py:99-103 | adding the daily column twice equals adding it once |
| `Derived.NinetyExample` | src/etl.py:99-103 | a monthly charge of 90 gives a daily charge of 3 |
| `Pipeline.DeduplicatedCanCoerce` | src/etl.py:69-74 | after duplicate removal the frame still meets what coercion needs |
| `Pipeline.CoercedStage` | src/etl.py:69-77 | the frame the summary describes is well formed, with the deduplicated row count and the input labels |
| `Pipeline.TreatBasic` | src/etl.py:65-97 | the method returns the treated frame and the report (duplicates removed, summary of the coerced frame) |
| `Pipeline.TreatedReport` | src/etl.py:66-78 | the reported duplicate count plus the rows kept equal the input rows; the missing summary has one line per column, in non-increasing order of share |
| `Pipeline.CoercedObjectsComplete` | src/etl.py:74-87 | after coercion no `object` column holds a missing cell, so the `"Desconhecido"` fill changes nothing |
| `Pipeline.TreatedProperties` | src/etl.py:65-97 | rows kept plus duplicates reported equal the input rows; labels and order are kept; missing cells remain only in all-missing numeric columns |
| `Pipeline.ReportProperties` | src/etl.py:77-78 | the report has one line per column, each with a count within the row count and a label of the frame, in non-increasing order of share |

## Left out

- `ensure_dirs`, `fetch_json_to_df` and `save_processed` (src/etl.py:13-29 and 105-109) are not part of this model. They do file-system and network I/O.
- `src/viz.py` is not part of this model. It only draws charts.
- Numbers are unbounded reals. The model ignores floating-point rounding, the difference between integer and float dtypes, and `-0.0` versus `0.0` when rows are compared.
- `Summary.SummarizeMissing`: shares are exact ratios. The `round(4)` is not modelled. The order among equal shares is left open, because `sort_values` does not promise a stable order.
- `Summary.EntryOf`: the summary is a sequence of lines, not a frame indexed by label. The `to_dict(orient="index")` conversion in `treat_basic` is not modelled.
- `Coerce.ParseCell`: `to_numeric` accepts more than the model does. The model accepts the empty string (read as missing) and decimal literals with an optional sign, digits and at most one `.`. Exponents, `inf`, `nan` and surrounding whitespace are left out. None of these can reach the parse except exponents, `inf` and `nan`, since rewriting deletes whitespace.
- `Coerce.CoerceNumeric`: every targeted column must hold only text or missing cells, because `str()` of a float is not modelled. An explicit candidate list must not repeat a name. Without a list, labels must be unique, because the source itself raises outside its `try` on a repeated label. A candidate that is absent or labels several columns is skipped, as the swallowed exception does.
- `Coerce.Render`: a missing cell renders as `"nan"`. Python's `None`, which renders as `"None"`, is not told apart from NaN.
- `Chars.ToLower`: `str.lower` is modelled on ASCII and Latin-1 only. Other scripts, and the Latin-1 letters that lower to two characters or to a letter outside the range, are kept as they are.
- `Pipeline.TreatBasic`: requires unique labels and `object` columns holding only text or missing cells. These are the conditions the coercion needs. A number stored in an `object` column is not modelled.
- `YesNo.MapYesNoColumn`: the column turns numeric when no text is left. This follows pandas' inference of the result type after `fillna` on an `object` result, which is not itself modelled.
- `YesNo.MentionsLabel`: a number in an `object` column is never a label, because `str()` of a number never spells one.
- `Derived.CreateContasDiarias`: requires unique labels. The result keeps the kind of the monthly column. The monthly label is a parameter, and `Derived.DefaultMonthly` gives its default.
