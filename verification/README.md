# ANS expenses pipeline: a Dafny model of its decision logic

The repository is a two-stage batch pipeline over the quarterly accounting
filings that Brazil's health-insurance regulator (ANS) publishes as open data.

- **Teste 1**
  - finds the latest quarters on the open-data site;
  - keeps the claims-expense account ("Despesas com Eventos / Sinistros") of every filing;
  - consolidates it per operator.
- **Teste 2**
  - indexes the operator registry (CADOP);
  - joins it onto the consolidated expenses;
  - validates CNPJ numbers, names and amounts;
  - aggregates expenses per operator and state.

This project models the pure decisions of those stages. Rows are maps from
column name to text, and reading and writing files is outside the model.

| module | models |
|---|---|
| `Cnpj` | the two mod-11 check digits of a CNPJ and the validity predicate |
| `Validator` | the amount parser, the per-row reason list, and the valid/invalid partition |
| `Enricher` | header normalisation, CNPJ canonicalisation, the first-wins registry index, and the left-outer join |
| `ExpenseFilter` | the Brazilian-format amount parser and the selection of claims-expense lines |
| `Aggregator` | grouping by (RazaoSocial, UF) and per-quarter sums, then total, mean, spread, and the sort by total |
| `Statistics` | `sum`, `statistics.mean`, `statistics.pvariance` |
| `Downloader` | archive-name matching, year-folder filtering, grouping per quarter, merging, and picking the three latest quarters |

Supporting modules:

- `Text`: stripping, digits, upper-casing, `zfill`, `str(int)`.
- `Numbers`: the grammar `float()` and `Decimal()` accept, read as exact
  reals, plus the rounding functions.
- `Dicts`: Python's insertion-ordered `dict`, with assignment and `update`.
- `Sorting`: a stable sort, as `sorted` and `list.sort` guarantee.
- `Seqs`: filter, map, and filter-map.
- `Rows`: `row.get`.
- `Wrappers`: `Option`.

How the model represents the source's values and effects:

- A `None` cell is an absent key, so `Rows.Get` gives `""`. The modelled
  functions do not map `None` themselves. In Teste 1 the file reader does it
  before the filter sees a row (`teste_1/file_reader.py:38-41` for CSV,
  `teste_1/file_reader.py:65-69` for XLSX). In Teste 2 every read is written
  `row.get(...) or ""`. On a `None` cell, `filter_expense_rows` itself would
  raise at `.upper()` or `.strip()`.
- Each network listing is a parameter: `linksOf` maps a URL to the links on
  that page. Each file's rows are a parameter too.
- The validator's input is the Teste 1 output, not the enriched file
  (`teste_2/validator.py:19`). The model therefore validates whatever rows it
  is given.
- The Teste 1 output has no `REG_ANS` column. As the code stands, every join
  lookup misses (`Enricher.BlankKeyMisses`). The join is still modelled for
  any index.
- `teste_2/aggregator.py:41-58` is the same function as
  `teste_2/validator.py:78-94`, so one member models both
  (`Validator.ParsePositiveFloat`).
- `ExpenseFilter.SameAsValidatorAmount` proves that Teste 1's parser agrees
  with it on every text the modelled number grammar reads. Teste 1 strips
  after normalising and the validator strips before, and that order does not
  matter. The two differ on `nan`, which the model does not read (see below).

Where the written description of the system and the code disagree, the
model follows the code:

- Expense lines match on the upper-cased description. `filter_expense_rows`
  does not trim the description, so it misses a padded one when called alone
  (`ExpenseFilter.PaddedDescriptionMisses`). In the pipeline every cell has
  already been stripped by the file reader (`teste_1/file_reader.py:38-41`,
  called from `teste_1/main.py:46-52`), so there the match is on the trimmed
  description.
- The placeholder is `Desconhecido`, not `Unknown`.
- The registry key is read only from `REGISTRO_OPERADORA`, not from
  alternative columns.
- A repeated registry key is ignored silently. No duplicates report is built.
- Registry rows whose CNPJ canonicalises to `""` are still indexed.
- The invalid-row report holds only rows that failed the CNPJ check. Rows
  that failed only for other reasons appear in neither output.
- Sort ties keep group order, because Python's sort is stable. The model
  adds no secondary sort key.

## Model

| member | source | states |
|---|---|---|
| Text.OnlyDigitsAppend | teste_2/validator.py:35-39 | removing non-digits distributes over concatenation: each part keeps exactly its own digits, in order |
| Text.OnlyDigitsIdempotent | teste_2/validator.py:35-39 | filtering digits twice is filtering once |
| Text.StripSpec | teste_2/aggregator.py:34-38 | the stripped text neither starts nor ends with whitespace, and it is empty exactly when the input is all whitespace |
| Text.StripIdempotent | teste_2/aggregator.py:34-38 | stripping twice is stripping once |
| Text.Upper | teste_1/expense_filter.py:45 | same length; every lower-case letter becomes the upper-case letter at the same place in the alphabet, and every other character is unchanged |
| Text.ZFill | teste_2/enricher.py:118 | pads to at least the width and never shortens; for digit strings the numeric value is unchanged |
| Text.NatToString | teste_1/downloader.py:35 | `str(n)` is a non-empty digit string that reads back as `n`, with no leading zero except for 0 itself |
| Text.StripSlashesAround | teste_1/downloader.py:24 | `strip("/")` removes exactly the slashes around a text that neither starts nor ends with one |
| Numbers.ParseDecimal | teste_2/validator.py:88-90 | `float("<digits>.<digits>")` is the exact decimal value of the digits |
| Numbers.ParseNatToString | teste_2/validator.py:88-90 | `float(str(n))` is `n` |
| Numbers.RoundHalfUp | teste_2/enricher.py:117 | ROUND_HALF_UP lands within one half of the value, and exact halves go away from zero |
| Numbers.RoundCents | teste_2/aggregator.py:119-121 | `round(x, 2)` in hundredths is the integer nearest to `100 * x`, and an exact tie goes to the even neighbour |
| Numbers.Round2 | teste_2/aggregator.py:119-121 | `round(x, 2)` is a whole number of cents within half a cent of `x` |
| Cnpj.CheckDigit | teste_2/validator.py:42-48 | the check digit is one decimal digit: `0` exactly when the weighted sum mod 11 is below 2, otherwise 11 minus the remainder |
| Cnpj.IsValidCnpj | teste_2/validator.py:51-75 | a valid CNPJ has exactly 14 digits, not all the same, and its last two digits are the check digits of its first twelve |
| Cnpj.ValidityIgnoresFormatting | teste_2/validator.py:58 | validity is decided by the digits alone: punctuation and other characters never matter |
| Cnpj.ValidDigitsCharacterised | teste_2/validator.py:60-75 | for 14 digits, valid if and only if not all equal and the last two equal the computed check digits |
| Cnpj.CheckDigitsUnique | teste_2/validator.py:66-75 | a twelve-digit base that is not all one digit has exactly one valid final pair, the computed one |
| Cnpj.WithCheckDigitsIsValid | teste_2/validator.py:66-75 | appending the computed check digits to such a base always gives a valid CNPJ |
| Cnpj.RepeatedDigitsInvalid | teste_2/validator.py:63-64 | fourteen copies of one digit are never valid |
| Cnpj.ExampleValid | teste_2/validator.py:66-75 | the well-known example 11.444.777/0001-61 is valid |
| Cnpj.SubstitutionNotAlwaysDetected | teste_2/validator.py:66-75 | two valid CNPJs can differ in their first digit only: the check digits do not catch every single-digit substitution |
| Validator.ParsePositiveFloat | teste_2/validator.py:78-94 | a parsed amount is always positive, and blank text is rejected |
| Validator.Positive | teste_2/validator.py:94 | keeps a parsed number exactly when it is above zero |
| Validator.BrlRoundTrip | teste_2/validator.py:78-94 | any amount written in Brazilian format (points between thousands, comma before two cents) reads back as its value; a zero amount is rejected |
| Validator.GroupedAmountExample | teste_2/validator.py:81-88 | `1.234,56` reads as 1234.56 |
| Validator.PointAmount | teste_2/validator.py:88-90 | a point written as a decimal point is dropped: `whole.frac` reads as the integer spelled by all the digits, so `1234.56` gives 123456 |
| Validator.RejectedAmountExamples | teste_2/validator.py:84-94 | `0,00` and `""` are rejected |
| Validator.ReasonsFor | teste_2/validator.py:101-115 | each reason code is present exactly when its check fails, and the codes appear in check order |
| Validator.ValidateRow | teste_2/validator.py:97-115 | valid exactly when there are no reasons; CNPJ_INVALIDO, RAZAO_SOCIAL_VAZIA and VALOR_INVALIDO_OU_NAO_POSITIVO are each present exactly when their check fails, in that order, with no short-circuit |
| Validator.CheckOrderDetermines | teste_2/validator.py:101-115 | two reason lists in check order with the same members are equal, so the set of failed checks fixes the list |
| Validator.MotivosSplit | teste_2/validator.py:154 | the Motivos text splits at commas back into the reason codes |
| Validator.ReportRow | teste_2/validator.py:148-155 | the report row has exactly the six report columns: the five copied from the input row, and the joined reasons as Motivos |
| Validator.PartitionRows | teste_2/validator.py:141-155 | the loop's two outputs are the rows it keeps and the report rows it builds, in input order |
| Validator.ValidateRows | teste_2/validator.py:141-155 | the valid output is the valid rows unchanged and in order; the report holds one row per row that failed the CNPJ check, in order |
| Validator.PartitionAsFilters | teste_2/validator.py:141-155 | the append loop is a filter of the valid rows and a filter-then-map of the CNPJ failures |
| Validator.PartitionCounts | teste_2/validator.py:141-155 | every row is exactly one of: valid, failed the CNPJ check, failed only other checks |
| Validator.FilterSplitsFailures | teste_2/validator.py:144-147 | the invalid rows split into those reported and those dropped |
| Validator.ReportLeadsWithCnpj | teste_2/validator.py:104-105 | a reported row's Motivos begins with CNPJ_INVALIDO |
| Enricher.NormalizeHeader | teste_2/enricher.py:60-64 | the result is the stripped header with each lower-case letter replaced by its upper-case letter and every other character kept; it is empty exactly when the header is blank or missing |
| Enricher.NormalizeHeaderIdempotent | teste_2/enricher.py:60-64 | normalising twice is normalising once |
| Enricher.StrippedCells | teste_2/enricher.py:142-143 | one stripped cell per header column, with missing cells empty |
| Enricher.BuildRow | teste_2/enricher.py:141-143 | the row's keys are exactly the normalised names, and each value is one of the line's cells |
| Enricher.BuildRowLastWins | teste_2/enricher.py:142-143 | a cell lands under its name unless a later column normalises to the same name |
| Enricher.NormalizeRow | teste_2/enricher.py:138-143 | the keys are the normalised header names and every value is stripped |
| Enricher.ParseCnpj | teste_2/enricher.py:98-120 | blank gives `""`; exactly 14 digits gives those digits; otherwise text that reads as a non-negative number (`,` as `.`) gives the decimal digits of its half-up rounding, zero-filled to exactly 14 places when it fits and unpadded otherwise; when that rounding has more than 4300 digits, `str()` raises the ValueError the code catches, and the result is the text's digits zero-filled; other text gives its digits zero-filled, or `""` when it has none |
| Enricher.DigitsOrBlank | teste_2/enricher.py:119-120 | `""` exactly when the text has no digit; otherwise at least 14 digits with the same value as the text's digits, as `zfill(14)` gives |
| Enricher.ParseCnpjCanonical | teste_2/enricher.py:110-112 | a canonical 14-digit CNPJ reads back as itself |
| Enricher.Entry | teste_2/enricher.py:153-164 | the entry holds `parse_cnpj` of the row's CNPJ, its stripped RAZAO_SOCIAL, MODALIDADE and UF, and its registration number as RegistroANS |
| Enricher.FirstWinsMap | teste_2/enricher.py:145-151 | the keys are exactly the non-empty keys that occur |
| Enricher.FirstWinsMapSource | teste_2/enricher.py:145-158 | every value comes from a row with that key |
| Enricher.FirstOccurrenceWins | teste_2/enricher.py:149-151 | a key maps to the value of its first occurrence |
| Enricher.LaterValuesIgnored | teste_2/enricher.py:149-151 | rows added later never change an existing key's value |
| Enricher.CadopMap | teste_2/enricher.py:145-164 | the index holds exactly the non-empty registration numbers, and each entry's RegistroANS is its key |
| Enricher.FirstWins | teste_2/enricher.py:149-164 | the index entry for a number is built from the first row that carries it |
| Enricher.LaterRowsKeepEntries | teste_2/enricher.py:149-151 | appending registry rows never changes an entry already indexed |
| Enricher.LoadCadopMap | teste_2/enricher.py:138-164 | the loop builds the first-wins index of the normalised registry rows |
| Enricher.OrUnknown | teste_2/enricher.py:216-218 | `value or "Desconhecido"`: an empty value becomes `Desconhecido` and a non-empty one is kept |
| Enricher.Backfill | teste_2/enricher.py:211-214 | a blank column takes the registry value, a non-blank one keeps its own, and no other column changes |
| Enricher.HitRow | teste_2/enricher.py:209-219 | a hit keeps every column except the five it may fill, and adds RegistroANS, Modalidade and UF |
| Enricher.MissRow | teste_2/enricher.py:220-223 | a miss keeps every other column and adds exactly RegistroANS, Modalidade and UF |
| Enricher.EnrichRow | teste_2/enricher.py:205-230 | a row produces a no-match record exactly when its stripped REG_ANS is not indexed, and that record is (REG_ANS, Ano, Trimestre) |
| Enricher.EnrichKeepsOtherColumns | teste_2/enricher.py:205-232 | columns the join does not write are passed through unchanged |
| Enricher.EnrichHit | teste_2/enricher.py:209-218 | on a hit, CNPJ and RazaoSocial are filled only when blank; RegistroANS, Modalidade and UF take the entry's value or `Desconhecido` |
| Enricher.EnrichMiss | teste_2/enricher.py:220-230 | on a miss, CNPJ and RazaoSocial are untouched and the three added columns are `Desconhecido` |
| Enricher.BlankKeyMisses | teste_2/enricher.py:206-207 | a row without a REG_ANS value always misses, since the index holds no empty key |
| Enricher.HitsAndMissesCover | teste_2/enricher.py:202-224 | hits plus misses equal the number of rows |
| Enricher.JoinRows | teste_2/enricher.py:205-232 | one output row per input row in input order; the counters count hits and misses, and the no-match list follows input order |
| Enricher.JoinByIndex | teste_2/enricher.py:205-232 | the loop with the per-row join plugged in gives the join's miss list and hit count |
| Enricher.EnrichConsolidated | teste_2/enricher.py:202-232 | one joined row per input row, in order; `match_count + no_match_count` equals the row count |
| Enricher.OutputFields | teste_2/enricher.py:191-196 | the output header is the input header followed by those of RegistroANS, Modalidade and UF it lacks, in that order, with no repeats added |
| Enricher.AppendMissing | teste_2/enricher.py:194-196 | appending only absent columns keeps the prefix, adds every extra column, and keeps the header free of repeats |
| Enricher.AppendMissingOrder | teste_2/enricher.py:194-196 | appending distinct extra columns one by one gives the header followed by exactly those it lacks, in their given order |
| ExpenseFilter.ParseMonetaryValue | teste_1/expense_filter.py:7-30 | empty text is rejected, and any value returned is positive |
| ExpenseFilter.SameAsValidatorAmount | teste_1/expense_filter.py:16-23 | on every text the modelled `float()` grammar reads, Teste 1's amount parser gives the same verdict and value as the validator's |
| ExpenseFilter.ParseNormalisedStripped | teste_1/expense_filter.py:16-20 | stripping before or after dropping points and commas does not change what `float()` reads |
| ExpenseFilter.Select | teste_1/expense_filter.py:44-61 | a line yields a record exactly when its upper-cased description is the target and its balance parses as positive; that record's amount is the parsed VL_SALDO_FINAL |
| ExpenseFilter.RecordOf | teste_1/expense_filter.py:50-61 | the record has the stripped CNPJ and RAZAO_SOCIAL, Ano and Trimestre equal to the arguments, and, for a kept line, ValorDespesas equal to the parsed VL_SALDO_FINAL |
| ExpenseFilter.PickRows | teste_1/expense_filter.py:42-63 | the loop appends the record of each line that yields one, in order |
| ExpenseFilter.FilterExpenseRows | teste_1/expense_filter.py:33-63 | the output is the records of exactly the matching lines, in input order |
| ExpenseFilter.FilteredRecords | teste_1/expense_filter.py:44-63 | no more records than lines; the i-th record has the requested year and quarter, the parsed VL_SALDO_FINAL of the i-th kept line as its (positive) amount, and stripped identifiers |
| ExpenseFilter.PaddedDescriptionMisses | teste_1/expense_filter.py:45-48 | a description with leading whitespace never matches, because there is no strip |
| ExpenseFilter.DescriptionMatchIgnoresCase | teste_1/expense_filter.py:45-47 | a description matches exactly when it spells the account name letter for letter, each letter in either case, with nothing before or after |
| Statistics.MeanBetween | teste_2/aggregator.py:109 | the mean lies between any lower and upper bound of the values |
| Statistics.PVarianceNonnegative | teste_2/aggregator.py:111-114 | the population variance is never negative |
| Statistics.ConstantStatistics | teste_2/aggregator.py:109-114 | equal values have that value as mean and no spread |
| Aggregator.UfOf | teste_2/aggregator.py:86 | the state is never empty |
| Aggregator.UfDefault | teste_2/aggregator.py:86 | the state is the stripped UF, or `Desconhecido` when that is blank or missing |
| Aggregator.EntryOf | teste_2/aggregator.py:84-98 | a row is accepted exactly when RazaoSocial, Ano and Trimestre are non-blank and the amount parses positive; its amount is the parsed ValorDespesas, and it is keyed by the stripped (RazaoSocial, UF) and (Ano, Trimestre) |
| Aggregator.AddEntry | teste_2/aggregator.py:97-101 | adding an accepted row keeps every group's quarter map well-formed and non-empty, and adds its group |
| Aggregator.Group | teste_2/aggregator.py:84-101 | the groups built from any rows are well-formed, and every group has at least one quarter |
| Aggregator.GroupBy | teste_2/aggregator.py:84-101 | the row loop builds the grouping of exactly the accepted rows, in order |
| Aggregator.GroupOrder | teste_2/aggregator.py:97-101 | the groups are exactly those of the accepted rows, listed in the order in which each group's first accepted row appears |
| Aggregator.GroupKeys | teste_2/aggregator.py:97-100 | the groups are exactly the (RazaoSocial, UF) pairs of accepted rows |
| Aggregator.GroupQuarters | teste_2/aggregator.py:98-101 | a group's quarters are exactly the (Ano, Trimestre) pairs of its rows |
| Aggregator.QuarterSums | teste_2/aggregator.py:101 | each quarter of a group maps to the sum of the amounts of that group's rows in that quarter |
| Aggregator.GroupSums | teste_2/aggregator.py:105-108 | the sum of a group's quarter sums is the sum of all its rows' amounts |
| Aggregator.QuarterValues | teste_2/aggregator.py:105-106 | the values the statistics use are the per-quarter sums, in order of first appearance |
| Aggregator.Summarise | teste_2/aggregator.py:105-123 | a summary line carries its group's name and state, and counts one quarter per distinct quarter key |
| Aggregator.Summaries | teste_2/aggregator.py:103-123 | one summary per group |
| Aggregator.ByTotalIsPreorder | teste_2/aggregator.py:126 | ordering by total is total and transitive, so the sort is well defined |
| Aggregator.Aggregate | teste_2/aggregator.py:84-126 | the output is a permutation of the group summaries, sorted non-increasing by rounded total, with ties in group order, that is, the order in which each group's first accepted row appears (`Aggregator.GroupOrder`) |
| Aggregator.SummaryOfGroup | teste_2/aggregator.py:105-123 | per group: total is the rounded sum of its rows, QtdTrimestres is the number of distinct quarters (at least 1), mean is the per-quarter mean (the total over that count), rounded, and spread is 0 below two quarters and otherwise the non-negative population variance of the quarter sums |
| Dicts.Put | teste_2/aggregator.py:100-101 | assignment maps the key to the value; a new key goes last and an existing key keeps its place |
| Dicts.Update | teste_1/downloader.py:66 | `update` gives the union with the right operand winning, and keeps the left operand's keys in front |
| Dicts.UpdateAllLastWins | teste_1/downloader.py:64-66 | after successive updates, a key holds the value from the last dict that has it |
| Dicts.UpdateAllSource | teste_1/downloader.py:64-66 | every key of the result comes from the last dict holding it, with that dict's value |
| Dicts.UpdateAllUnlisted | teste_1/downloader.py:64-66 | a key no dict holds is not in the result |
| Sorting.SortSorted | teste_2/aggregator.py:126 | the sorted list is ordered by the comparison |
| Sorting.SortStable | teste_2/aggregator.py:126 | elements that compare equal keep their relative order |
| Sorting.SortDistinct | teste_1/downloader.py:68-72 | sorting distinct keys leaves them distinct |
| Downloader.MatchZip | teste_1/downloader.py:41-47 | a matched name gives quarter 1..4 and a year in 2000..2099 |
| Downloader.MatchZipSpec | teste_1/downloader.py:12 | a link matches with (year, quarter) exactly when its first ten characters spell `{q}T{yyyy}.zip` in any letter case |
| Downloader.TrailingTextAccepted | teste_1/downloader.py:41 | the match is anchored at the start only: text after the archive name is not rejected |
| Downloader.ZipFiles | teste_1/downloader.py:38-54 | the quarter map is well-formed, every key is a valid period from a file name, and every list is non-empty |
| Downloader.ZipFilesContents | teste_1/downloader.py:40-52 | each period holds the folder URL joined to each link naming it, in link order, and is present exactly when such a link exists |
| Downloader.ZipFilesForYear | teste_1/downloader.py:30-54 | a year folder's archives form a well-formed map from valid periods to non-empty URL lists |
| Downloader.YearOfFolder | teste_1/downloader.py:23-25 | digits between slashes, followed by at least one slash, read as their year |
| Downloader.YearLinkRoundTrip | teste_1/downloader.py:24-25 | the link `str(y) + "/"` reads back as `y` |
| Downloader.AvailableYears | teste_1/downloader.py:15-27 | the years are exactly the accepted folder years, in ascending order |
| Downloader.Merged | teste_1/downloader.py:61-66 | the merged map is well-formed, with valid periods and non-empty lists |
| Downloader.MergedLastWins | teste_1/downloader.py:64-66 | a period maps to the list from the last year folder that has it |
| Downloader.MergedOnlyListed | teste_1/downloader.py:64-66 | a period no folder lists is absent |
| Downloader.Latest | teste_1/downloader.py:68-76 | keeps the min(3, n) latest periods, each with its merged list, in strictly descending (year, quarter) order, each later than every period left out |
| Downloader.PrefixOfSorted | teste_1/downloader.py:68-74 | a prefix of the keys sorted latest-first holds periods later than every key it leaves out |
| Downloader.LastThreeQuarters | teste_1/downloader.py:57-76 | at most three periods, each a valid quarter with a non-empty URL list |

## Left out

- HTTP, HTML scraping (`list_links`), and the archive downloads (`download_zip_files`, `download_latest_cadop_csv`). These are network I/O; the link listings are a parameter instead.
- File, directory, ZIP and CSV reading and writing. This includes `csv.DictReader`/`DictWriter`, `detect_delimiter` (which uses `csv.Sniffer`), and the exceptions for a missing file or header. The model takes rows that have already been read.
- `teste_1/file_reader.py`, `teste_1/extractor.py`, `teste_1/consolidator.py` and `teste_2/packer.py` are not part of this model. They are plumbing around the modelled decisions.
- Binary floating point. Amounts, sums, means and variances are exact reals, and `float()` and `Decimal()` are read as one exact grammar. `inf`, `nan`, `Infinity` and digit underscores are not accepted.
- For `Infinity` in the registry's CNPJ column, the source raises an uncaught OverflowError; the model falls back to the digits.
- Unicode. Digits, whitespace, `upper()` and the regular expression's case folding follow ASCII, plus Latin-1 whitespace. Non-ASCII digits that `\d` and `isdigit()` accept are left out.
- Aggregator.SummaryOfGroup: the spread is the population variance. The `statistics.pstdev` square root of it is not modelled, and neither is rounding the deviation to two places.
- Numbers.Round2: `round(x, 2)` is modelled as exact round-half-even on the real value, not on its binary approximation.
- Enricher.ParseCnpj: for text that reads as a negative number, the contract only bounds the length. The body does follow `zfill`'s sign handling. The 4300-digit limit of `str()` on an int (`Text.MaxStrDigits`) is CPython's default since 3.11; with an earlier interpreter, or a changed limit, the numeric branch would be taken for longer numbers too.
- Downloader.YearOfFolder: a folder name of more than 4300 digits makes `int()` at `teste_1/downloader.py:25` raise an uncaught ValueError, which ends the run. The model reads such a name as its year instead.
- Downloader.AvailableYears: for the same reason, a listing with a folder name of more than 4300 digits crashes the source, while the model lists that year.
- Enricher.NormalizeRow: assumes distinct raw header names. With a repeated raw header, `csv.DictReader` keeps one key, and the positional `zip` in `teste_2/enricher.py:142` would pair the remaining keys with shifted names.
- Downloader.ZipFiles: the order of the quarter keys (first appearance) is modelled but not stated, because nothing downstream depends on it.
- ExpenseFilter.SameAsValidatorAmount: holds for the modelled grammar only. On `nan`, `teste_1/expense_filter.py:27` lets `float('nan')` through, because `nan <= 0` is false. So Teste 1 can write a NaN ValorDespesas, which `teste_2/validator.py:94` then rejects, because `nan > 0` is false. The model reads neither `nan` nor `inf`, so both parsers give `None` for them.
- ExpenseFilter.ParseMonetaryValue: rejects `nan` and `inf`, which the source accepts (see the line above).
- Enricher.EnrichConsolidated: when the input header lacks CNPJ or RazaoSocial, a hit adds that column to the row, and `csv.DictWriter` raises ValueError at `teste_2/enricher.py:232` because the key is not among its field names. The model returns the row with the extra column and does not model the exception.
- Statistics: the converse of `Statistics.ConstantStatistics` (a zero variance means all values are equal) is not proved.
