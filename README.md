# VIX constant-maturity pipeline in Dafny

This project models the core of `vix_pca_futures_trade`. The pipeline turns
VIX futures, which expire on fixed dates, into constant-maturity synthetic
prices, and the model proves properties of each stage:

- **Contract keys and the expiry calendar** (`Configs`, `Utilis`, `Dates`).
  - The futures month table `FUT_MONTHS` / `CODE_TO_MONTH`.
  - The symbol patterns `CONTRACT_RE` and `FILENAME_RE`, written out as a small grammar.
  - `contract_key_from_symbol` with its two-digit-year pivot at 79/80.
  - `infer_symbol_from_filename`.
  - `require_columns`.
  - `parse_expiry_file`: a loop filling a dictionary from lines written
    `%d %B %Y`, with a model of `strptime` for that format.
- **Term-structure building** (`TermStructure`).
  - `_pick_close_near_255_ct`: one row per (symbol, tradingDay), closest to 14:55.
  - `build`: symbol inference, the inner loop that appends expiries and
    times to maturity, the `ttm_days > 0` filter, the loop over files,
    de-duplication on (symbol, tradingDay) keeping the first row, and the
    final sort.
- **Constant-maturity weighting** (`Weights`).
  - `_weights_for_tenor`: the bracket `(d1, d2)` of listed maturities
    around the tenor, the clamp policy, the first symbol at each end of
    the bracket, and the interpolation weights.
  - `add_weights`: a loop joining one weight column per tenor onto the
    working table.
- **Synthetic aggregation** (`Synthetic`).
  - `SyntheticPriceBuilder.build`: discovering the `weight_` columns, and
    for each trading day in ascending order the sum of close × weight,
    named `px_…`.
- **Supporting modules.**
  - `Frames`: a column-oriented polars `DataFrame` with named, typed
    columns of one height.
  - `Text`: the ASCII behaviour of `strip`, `upper`, `lower`,
    `startswith`, `str(int)` and string ordering.
  - `Wrappers`: `Option` and `Result`. Raised exceptions are `Err` values.

Data representation:

- A trading day is a date ordinal, as `date.toordinal()` gives it.
- A timestamp is a whole number of seconds of reference-zone wall-clock
  time. Day `d` starts at `d * 86400`.
- Prices, times to maturity and weights are exact reals or integers.

The loops of the source are methods whose postconditions tie them to pure
functions:

- `ParseExpiryFile` equals `ExpiryCalendar`.
- `AttachExpiries` equals `Attach`.
- `TermStructure.Build` equals `BuildSpec`.
- `AddWeights` equals `AddWeightsSpec`.

The properties the source promises are proved about those functions.

Three behaviours of the code worth stating:

- The `clamp=False` error carries no list of offending days. The code
  raises a fixed message.
- A null `symbol` in a file whose symbol column is not entirely null makes
  the build fail (`NullSymbol`). polars sorts the null group first, so
  `contract_key_from_symbol(None)` is the first call of the inner loop to
  fail.
- The "`symbol` column missing" branch of line 89 cannot be reached.
  `read_csv(columns=[...])` already raises `ColumnNotFoundError` for such a
  file, and the loop skips it. So a batch is either `Unreadable` or has
  all four columns.

## Model

| member | source | states |
|---|---|---|
| Configs.TargetTs | term_structure.py:41-51 | the target timestamp of a trading day falls inside that day (14:55 on it) |
| Configs.IndexOf | _configs.py:13 | the index `enumerate` gives a letter: it holds the letter and no earlier position does |
| Configs.FutMonthsIncreasing | _configs.py:12 | `FUT_MONTHS` has twelve letters in strictly ascending order |
| Configs.FutMonthsDistinct | _configs.py:12-13 | the twelve letters are pairwise distinct and `CODE_TO_MONTH` maps the i-th letter to i + 1 |
| Configs.CodeToMonthBijection | _configs.py:13 | `CODE_TO_MONTH` has exactly the twelve letters as keys, exactly 1..12 as values, is injective and follows list order |
| Configs.MonthCode | _configs.py:12-13 | the inverse table: the letter of month m is a month code that maps back to m |
| Configs.ContractReSearch | _configs.py:15 | a match is `VI`, a month letter and two digits in any case, ending at the end of the string or before a final newline; no match means neither end position matches |
| Configs.FilenameReSearch | _configs.py:16 | the leftmost case-insensitive match at or after a position; no match means no position matches |
| Text.Strip | src/vix_pca/_utilis.py:22 | the stripped line is the slice of the line left after its leading and trailing whitespace, only whitespace is removed around it, it neither starts nor ends with whitespace, and it is empty exactly when the line is blank |
| Text.StripKeepsWord | src/vix_pca/_utilis.py:31 | stripping keeps a trailing word that starts and ends with a non-space character |
| Text.Upper | src/vix_pca/_utilis.py:31 | after `upper()` no lower-case letter remains, a character is an upper-case letter exactly when it was a letter of either case, and every non-lower-case character is kept |
| Text.CaseFold | src/vix_pca/_utilis.py:31 | case mapping forgets case: `Lower(Upper(s)) == Lower(s)`, `Upper(Lower(s)) == Upper(s)`, and upper-casing twice is upper-casing once |
| Text.Lower | src/vix_pca/_utilis.py:25 | after `lower()` no upper-case letter remains, a character is a lower-case letter exactly when it was a letter of either case, and every non-upper-case character is kept |
| Text.StrLessIrreflexive | term_structure.py:62 | the string order polars sorts by is irreflexive |
| Text.StrLessTransitive | term_structure.py:62 | the string order is transitive |
| Text.StrLessTotal | term_structure.py:62 | distinct strings are comparable |
| Text.StrLessAsymmetric | term_structure.py:62 | the string order is asymmetric |
| Text.NatToString | src/vix_pca/weights.py:90 | `str(n)` is a non-empty digit string, one digit long exactly when n < 10 |
| Text.NatToStringValue | src/vix_pca/weights.py:90 | the digits `str(n)` writes read back, most significant first, as n |
| Text.IntToStringInjective | src/vix_pca/weights.py:90 | distinct integers are written differently |
| Text.NatToStringInjective | src/vix_pca/weights.py:90 | distinct naturals are written differently |
| Dates.Ordinal | term_structure.py:107 | `toordinal()` of a valid date is positive and falls in its year's block of 365 or 366 days after all earlier years |
| Dates.SkipSpaces | src/vix_pca/_utilis.py:25 | `\s+` in the format consumes exactly the run of whitespace that follows, stopping at the first non-space character or the end |
| Dates.WordEnd | src/vix_pca/_utilis.py:25 | a word of the input runs to the first whitespace character or the end |
| Dates.WordFields | src/vix_pca/_utilis.py:25 | in `dd name yyyy` the month name is the word after the first space and the year is what follows the second |
| Dates.DaysInMonth | src/vix_pca/_utilis.py:25 | every month has 28 to 31 days |
| Dates.OrdinalNextDay | term_structure.py:107 | consecutive calendar days have consecutive ordinals, so `(exp - d).days` is a difference of ordinals |
| Dates.DayToken | src/vix_pca/_utilis.py:25 | `%d` reads a day between 1 and 31 that is followed by whitespace |
| Dates.MonthNamed | src/vix_pca/_utilis.py:25 | `%B` accepts exactly the twelve English month names in any letter case |
| Dates.FindMonth | src/vix_pca/_utilis.py:25 | a month found for a word is the one whose lower-case name is that word; none means no later name matches |
| Dates.FindMonthIndex | src/vix_pca/_utilis.py:25 | each month name is found as its own month |
| Dates.DistinctMonthNames | src/vix_pca/_utilis.py:25 | the twelve month names differ after lower-casing, so `%B` is unambiguous |
| Dates.FormatDateDay | src/vix_pca/_utilis.py:25 | the written date starts with its two-digit day and one space |
| Dates.FormatDateMonth | src/vix_pca/_utilis.py:25 | the written date continues with its month name, one space and its four-digit year |
| Dates.ParseDate | src/vix_pca/_utilis.py:25 | `strptime("%d %B %Y")` yields only valid calendar dates |
| Dates.ParseFormatDate | src/vix_pca/_utilis.py:25 | parsing what `strftime("%d %B %Y")` wrote returns the same date |
| Utilis.YearFromTwoDigits | src/vix_pca/_utilis.py:35-36 | the year lies in 1980..2079, ends in yy, and is at least 2000 exactly when yy <= 79 |
| Utilis.KeyAt | src/vix_pca/_utilis.py:34-37 | a matched pattern encodes a month in 1..12 and a year in 1980..2079 |
| Utilis.TwoDigitsValue | src/vix_pca/_utilis.py:35 | two-digit writing of yy reads back as yy |
| Utilis.CanonicalSymbolShape | src/vix_pca/_utilis.py:30-37 | `VI` + month letter + two digits is five upper-case characters that match the pattern with the right letter and digits |
| Utilis.KeyAtCanonical | src/vix_pca/_utilis.py:34-37 | that symbol encodes the key (pivot year of yy, m) |
| Utilis.SearchAtEnd | src/vix_pca/_utilis.py:31 | a pattern occupying the last five characters is what `search` finds |
| Utilis.ResolveFound | src/vix_pca/_utilis.py:31-38 | a search hit in the normalised symbol resolves to the key at that position |
| Utilis.ContractKeyFromSymbol | src/vix_pca/_utilis.py:30-38 | succeeds exactly when `CONTRACT_RE` matches the stripped, upper-cased symbol; a failure carries the symbol; the key is in range |
| Utilis.ContractKeyOfSymbol | src/vix_pca/_utilis.py:30-38 | any prefix followed by `VI`, the letter of month m and digits yy resolves to the key (pivot year of yy, m) |
| Utilis.KeyAtSame | src/vix_pca/_utilis.py:34-37 | two matches with the same letter (up to case) and the same digits encode the same key |
| Utilis.ResolveSuffix | src/vix_pca/_utilis.py:31-38 | a symbol whose stripped, upper-cased form ends in a five-character match resolves to that match's key |
| Utilis.InferSymbolFromFilename | src/vix_pca/_utilis.py:41-47 | None exactly when `FILENAME_RE` finds nothing; otherwise a symbol `VI`, an upper-case month letter and two digits |
| Utilis.InferThenResolve | src/vix_pca/_utilis.py:30-47 | round trip: the symbol inferred from a filename resolves, to the key of the matched letter and digits |
| Utilis.ResolveWord | src/vix_pca/_utilis.py:30-38 | a bare upper-case five-character symbol resolves to the key it spells |
| Utilis.MissingMembers | src/vix_pca/_utilis.py:55 | a column is listed as missing exactly when it is requested and absent |
| Utilis.MissingConcat | src/vix_pca/_utilis.py:55 | missing columns are listed in request order |
| Utilis.RequireColumns | src/vix_pca/_utilis.py:54-57 | fails exactly when some requested column is absent, and lists the missing columns (never an empty list) |
| Utilis.ClassifyLine | src/vix_pca/_utilis.py:22-25 | a line is skipped exactly when it is blank; otherwise its stripped text either parses as a date or is the error |
| Utilis.Classify | src/vix_pca/_utilis.py:21 | one classification per line of the file |
| Utilis.ClassifyAll | src/vix_pca/_utilis.py:21-25 | every line of the file is classified on its own |
| Utilis.ClassifyAt | src/vix_pca/_utilis.py:21-25 | entry i of the classification is line i classified |
| Utilis.CalendarErrSticks | src/vix_pca/_utilis.py:25 | once a line fails to parse, later lines do not change the outcome |
| Utilis.CalendarStep | src/vix_pca/_utilis.py:23-26 | reading one more line skips it, raises, or stores its date under (year, month) |
| Utilis.ParseExpiryFile | src/vix_pca/_utilis.py:19-27 | the loop filling the dictionary returns exactly the expiry calendar of the lines |
| Utilis.Calendar | src/vix_pca/_utilis.py:21-26 | a failure names a line that was classified unparsable |
| Utilis.ExpiryCalendar | src/vix_pca/_utilis.py:19-27 | a failure carries the stripped text of a non-blank line that does not parse as `%d %B %Y` |
| Utilis.CalendarOk | src/vix_pca/_utilis.py:21-26 | the calendar is built exactly when no classified line is unparsable |
| Utilis.ExpiryCalendarOk | src/vix_pca/_utilis.py:21-26 | `parse_expiry_file` succeeds exactly when every line is blank or a date |
| Utilis.CalendarLastWins | src/vix_pca/_utilis.py:26 | every stored date is filed under its own (year, month); the keys are exactly the cycles some line dates; each entry is the last line that dates its cycle |
| Utilis.ExpiryCalendarLastWins | src/vix_pca/_utilis.py:21-26 | the same three facts stated over the lines of the file |
| Utilis.LastDatingLine | src/vix_pca/_utilis.py:26 | "last classified line dating k" read back as "last line of the file dating k" |
| TermStructure.SymDayLessTransitive | term_structure.py:62-63 | the (symbol, tradingDay) group order is transitive |
| TermStructure.SymDayLessTotal | term_structure.py:62-63 | distinct group keys are comparable |
| TermStructure.SymDayLessIrreflexive | term_structure.py:62-63 | the group order is irreflexive |
| TermStructure.InsertKey | term_structure.py:62-63 | inserting a key keeps the key list strictly ascending and adds exactly that key |
| TermStructure.SortedKeys | term_structure.py:62-63 | the groups of a batch: strictly ascending, and exactly the keys present |
| TermStructure.Closest | term_structure.py:57-64 | the kept row of a group belongs to the group and has minimal distance to 14:55 among its rows |
| TermStructure.ClosestPerKey | term_structure.py:61-65 | one kept row per requested key, each from the batch, of that key, and minimal |
| TermStructure.PickCovers | term_structure.py:61-65 | every row's group has a kept row |
| TermStructure.Pick | term_structure.py:25-66 | selection: kept rows have strictly ascending, hence distinct, keys; every key of the batch is kept; each kept row comes from the batch and is closest to 14:55 in its group |
| TermStructure.ResolveSymbols | term_structure.py:88-93 | an all-null symbol column takes the filename symbol, and raises when there is none; a partly null column raises; times, days and closes are kept |
| TermStructure.FirstUnresolved | term_structure.py:103-104 | the first row whose symbol does not resolve, or none |
| TermStructure.KeepPositive | term_structure.py:109-112 | a row is kept exactly when its time to maturity is non-null and positive, carrying its expiry and ttm |
| TermStructure.Attach | term_structure.py:100-112 | raises exactly when some picked symbol does not resolve; every row kept comes from the picked rows and has a positive ttm |
| TermStructure.AttachStep | term_structure.py:103-107 | one turn of the inner loop extends the expiry and ttm lists by the next row's values |
| TermStructure.AttachExpiries | term_structure.py:100-112 | the inner loop and the filter return exactly `Attach` |
| TermStructure.AttachFirstError | term_structure.py:103-104 | the loop raises on the first row whose symbol does not resolve |
| TermStructure.FirstUnresolvedAtK | term_structure.py:103-104 | the first unresolvable row is that row |
| TermStructure.AttachAllResolved | term_structure.py:100-112 | when every symbol resolves, the lists built are those of every row |
| TermStructure.AttachFails | term_structure.py:103-104 | the inner loop raises exactly when some picked symbol does not resolve, naming the first such symbol |
| TermStructure.AttachRows | term_structure.py:103-112 | the rows kept are exactly the picked rows whose key has an expiry, carrying that expiry and a positive ttm equal to expiry minus day |
| TermStructure.KeptIsDated | term_structure.py:109-112 | a kept row agrees with the calendar |
| TermStructure.DatedIsKept | term_structure.py:109-112 | a row that agrees with the calendar is kept |
| TermStructure.FirstOfKeySnoc | term_structure.py:116-118 | how appending a row changes which rows come first for their key |
| TermStructure.FirstPerKey | term_structure.py:116-118 | `unique(keep="first")`: unique keys, exactly the first row of each key, and every key retained |
| TermStructure.TermLessIrreflexive | term_structure.py:119 | the output order is irreflexive |
| TermStructure.TermLessTransitive | term_structure.py:119 | the output order is transitive |
| TermStructure.TermLessAsymmetric | term_structure.py:119 | the output order is asymmetric |
| TermStructure.TermLessTotal | term_structure.py:119 | rows with different sort keys are comparable |
| TermStructure.NotLessTransitive | term_structure.py:119 | "not after" is transitive |
| TermStructure.InsertTerm | term_structure.py:119 | inserting a row keeps the rows sorted, adds exactly that row, and keeps keys unique |
| TermStructure.InsertFront | term_structure.py:119 | a row not after the head can go in front |
| TermStructure.TailSorted | term_structure.py:119 | the tail of a sorted list is sorted |
| TermStructure.InsertBehind | term_structure.py:119 | inserting behind the head keeps order, contents and unique keys |
| TermStructure.ConsUnique | term_structure.py:116-119 | putting the head in front of rows drawn from the rest keeps keys unique |
| TermStructure.SortTerm | term_structure.py:119 | `sort(["tradingDay", "ttm_days", "symbol"])`: ascending, a permutation of its input, keeping keys unique |
| TermStructure.SortedStrict | term_structure.py:119 | with unique keys the sorted rows are strictly ascending |
| TermStructure.BatchRows | term_structure.py:77-114 | a file contributes only rows that agree with the calendar, or raises a file error |
| TermStructure.CollectStep | term_structure.py:77-114 | one turn of the file loop keeps every frame in agreement with the calendar |
| TermStructure.CollectFrames | term_structure.py:75-114 | every collected frame agrees with the calendar; errors come from files |
| TermStructure.CollectErrSticks | term_structure.py:77-114 | an error raised by a file ends the loop |
| TermStructure.Flatten | term_structure.py:116 | `pl.concat` holds exactly the rows of the frames |
| TermStructure.BuildSpec | term_structure.py:68-119 | a successful build has one row per (symbol, tradingDay), strictly ascending in (tradingDay, ttm_days, symbol), every ttm positive |
| TermStructure.Build | term_structure.py:68-119 | the build loop returns exactly `BuildSpec` over the expiry lines and the files |
| TermStructure.FinishRows | term_structure.py:116-119 | the output agrees with the calendar (every ttm positive), has one row per (symbol, tradingDay), is strictly ascending in (tradingDay, ttm_days, symbol), and holds exactly the first row of each key in concatenation order |
| TermStructure.SkipUnreadable | term_structure.py:78-86 | a file without the requested columns is skipped as if absent |
| TermStructure.AllUnreadable | term_structure.py:78-86 | files that are all skipped collect no frames |
| TermStructure.BuildCalendarError | term_structure.py:69 | an unparsable expiry line stops the build with that line |
| TermStructure.BuildNoFiles | term_structure.py:71-73 | with a readable calendar the build reports "no CSVs" exactly when the file list is empty |
| TermStructure.BuildAllSkipped | term_structure.py:116 | when every file is skipped the concatenation has nothing to concatenate and raises |
| TermStructure.InferredBatch | term_structure.py:88-95 | a file with an all-null symbol column and a name holding a symbol cannot fail, and every row it contributes carries the inferred symbol |
| TermStructure.OneSymbol | term_structure.py:61-66 | selection keeps the one symbol of a batch |
| TermStructure.AttachOneSymbol | term_structure.py:100-112 | with one resolvable symbol the inner loop succeeds and keeps that symbol |
| Weights.KeysOf | src/vix_pca/weights.py:24-26 | the key columns read row by row; succeeds exactly when they have the types the term stage produces |
| Weights.Largest | src/vix_pca/weights.py:28-32 | the day's d1 candidate passes the `<= T` filter |
| Weights.LargestSpec | src/vix_pca/weights.py:28-32 | d1 is a listed maturity of the day and the largest one `<= T`; absent exactly when no maturity of the day passes |
| Weights.Smallest | src/vix_pca/weights.py:33-37 | the day's d2 candidate passes the `>= T` filter |
| Weights.SmallestSpec | src/vix_pca/weights.py:33-37 | d2 is a listed maturity of the day and the smallest one `>= T` |
| Weights.Bracket | src/vix_pca/weights.py:39-71 | whenever the filtered d1 (d2) exists, the bracket's lower (upper) end is at most (at least) T |
| Weights.BracketListed | src/vix_pca/weights.py:51-71 | both ends of a bracket are listed maturities of that day |
| Weights.BracketInside | src/vix_pca/weights.py:28-44 | when both filtered values exist, d1 <= T <= d2, and they are the largest maturity <= T and the smallest >= T |
| Weights.ClampCollapses | src/vix_pca/weights.py:51-71 | with clamp, a missing d1 becomes the day's minimum, a missing d2 the day's maximum, and then d1 == d2 |
| Weights.BracketOrdered | src/vix_pca/weights.py:51-71 | a bracket with d1 != d2 is the unclamped one, with d1 <= T <= d2 and d1 < d2 |
| Weights.FirstSymbol | src/vix_pca/weights.py:73-84 | a first symbol found for a maturity is the symbol of a row of that day with that maturity |
| Weights.FirstSymbolSpec | src/vix_pca/weights.py:73-84 | sym1 (sym2) exists exactly when the day lists maturity d1 (d2), is a row of it, and is the least symbol among those rows |
| Weights.FirstSymbolStep | src/vix_pca/weights.py:73-84 | a new least symbol stays least over the earlier rows |
| Weights.BracketedAt | src/vix_pca/weights.py:46-49 | the days of the first rows all have brackets |
| Weights.SomeDayOutsideIff | src/vix_pca/weights.py:46-49 | some day lacks d1 or d2 exactly when some row's day does |
| Weights.ClampBracketed | src/vix_pca/weights.py:51-71 | with clamp every day has a bracket |
| Weights.OutsideIff | src/vix_pca/weights.py:46-49 | without clamp every day has a bracket exactly when no day lacks d1 or d2 |
| Weights.RowWeights | src/vix_pca/weights.py:92-107 | one weight per row |
| Weights.RowWeightsAt | src/vix_pca/weights.py:92-107 | the weight of row i is the formula applied to its bracket |
| Weights.TenorWeights | src/vix_pca/weights.py:46-49 | the weights of a tenor fail exactly when clamp is off and some day lacks d1 or d2; otherwise there is one per row |
| Weights.TenorWeightsRow | src/vix_pca/weights.py:92-107 | each row's weight comes from its day's bracket |
| Weights.WeightCases | src/vix_pca/weights.py:95-103 | d1 == d2: the sym1 row gets 1 and the rest 0; otherwise sym1 gets (d2-T)/(d2-d1), sym2 gets (T-d1)/(d2-d1) and every other row 0; every weight lies in [0, 1] |
| Weights.WeightOf | src/vix_pca/weights.py:95-103 | a row whose symbol is neither sym1 nor sym2 gets 0, and with d1 == d2 or d1 < d2 bracketing T every weight lies in [0, 1] |
| Weights.UnitFractions | src/vix_pca/weights.py:97-103 | the two interpolation fractions lie in [0, 1] and sum to 1 |
| Weights.PairSum | src/vix_pca/weights.py:145-153 | a day whose weights are wa for one symbol, wb for another and 0 otherwise sums to the weights of the symbols present |
| Weights.PairSumLast | src/vix_pca/weights.py:145-153 | the last row adds a symbol to its day at most once |
| Weights.DayWeights | src/vix_pca/weights.py:92-107 | every row of a day is weighted from that day's bracket and first symbols |
| Weights.WeightsSumToOne | src/vix_pca/weights.py:145-153 | with one row per (day, symbol), each day's weights of a tenor sum to exactly 1 |
| Weights.BracketSum | src/vix_pca/weights.py:95-103 | a day weighted by the formula, with its sym1 and sym2 rows present, sums to 1 |
| Weights.WeightName | src/vix_pca/weights.py:90 | the column name starts with `weight_` |
| Weights.WeightNameInjective | src/vix_pca/weights.py:90 | distinct tenors get distinct column names |
| Weights.JoinedName | src/vix_pca/weights.py:20 | the joined column takes its name, or `_right` appended when the name is taken, and the join fails when both are taken |
| Weights.CountDistinct | src/vix_pca/weights.py:20 | a key listed once occurs once |
| Weights.CountAbsent | src/vix_pca/weights.py:20 | an absent key occurs zero times |
| Weights.JoinRows | src/vix_pca/weights.py:20 | the left join's row pairs point into the table |
| Weights.JoinRowsDistinct | src/vix_pca/weights.py:20 | with distinct keys the left join keeps every row, in order |
| Weights.JoinWeights | src/vix_pca/weights.py:20 | the joined table keeps the key columns and adds one column name |
| Weights.WeightsForTenor | src/vix_pca/weights.py:23-108 | the weight table of a tenor: keys read from the table, name `weight_{T}d`, the tenor's weights; fails exactly when the keys or weights do |
| Weights.JoinTable | src/vix_pca/weights.py:20 | the join appends one column, named as `JoinedName` says, and fails exactly when both names are taken |
| Weights.AddTenor | src/vix_pca/weights.py:19-20 | one turn of the tenor loop appends one column after the existing names, or fails with a type, range or duplicate-name error |
| Weights.JoinWeightsColumns | src/vix_pca/weights.py:20 | the left join gathers every old column and the weights by the joined row pairs |
| Weights.JoinWeightsUnique | src/vix_pca/weights.py:20 | with distinct keys the join keeps height, keys and every column, and appends the weights |
| Weights.AddTenorUnique | src/vix_pca/weights.py:19-20 | with distinct keys one turn keeps every existing column and row and appends the tenor's weights |
| Weights.AddTenors | src/vix_pca/weights.py:17-21 | the loop keeps the existing names as a prefix and adds one name and one column per tenor |
| Weights.PrefixSnoc | src/vix_pca/weights.py:20 | appending a name keeps the existing names as a prefix |
| Weights.AddTenorsErrSticks | src/vix_pca/weights.py:18-20 | a failing tenor ends the loop |
| Weights.TenorColumns | src/vix_pca/weights.py:18-20 | one weight column per tenor |
| Weights.TenorColumnsAt | src/vix_pca/weights.py:18-20 | column j is the weights of tenor j |
| Weights.TenorColumnsLast | src/vix_pca/weights.py:18-20 | the columns of one more tenor extend by that tenor's weights |
| Weights.AddTenorsUnique | src/vix_pca/weights.py:14-24 | with distinct keys: existing columns and rows unchanged, then one column per tenor computed from the key columns alone, never from earlier weight columns |
| Weights.MapSeq | src/vix_pca/weights.py:18 | one output per element |
| Weights.MapSeqAt | src/vix_pca/weights.py:18 | output j is the function of element j |
| Weights.WeightNames | src/vix_pca/weights.py:90 | one name per tenor |
| Weights.AddTenorFresh | src/vix_pca/weights.py:19-20 | with clamp, a tenor whose name is free is added under exactly `weight_{T}d` |
| Weights.FreshName | src/vix_pca/weights.py:90 | a distinct tenor's name is not among the names already added |
| Weights.AddTenorsLast | src/vix_pca/weights.py:18-20 | the loop over one more tenor is one more turn |
| Weights.DistinctInit | src/vix_pca/weights.py:18 | a prefix of distinct tenors is distinct |
| Weights.AddTenorsClamped | src/vix_pca/weights.py:14-21 | with clamp and distinct fresh tenors, `add_weights` succeeds and appends exactly `weight_{T}d` for each tenor, in order |
| Weights.AddTenorsNext | src/vix_pca/weights.py:18-20 | one turn of the loop advances `AddWeightsSpec` by one tenor |
| Weights.AddWeightsSpec | src/vix_pca/weights.py:15 | fails with missing columns exactly when one of tradingDay, symbol, ttm_days is absent |
| Weights.AddWeights | src/vix_pca/weights.py:14-21 | the loop reassigning `out` returns exactly `AddWeightsSpec` |
| Synthetic.WeightColumns | src/vix_pca/synthetic.py:20 | no more weight columns than columns |
| Synthetic.WeightColumnsMembers | src/vix_pca/synthetic.py:20 | the weight columns are exactly the columns whose name starts with `weight_` |
| Synthetic.WeightColumnsConcat | src/vix_pca/synthetic.py:20 | the comprehension keeps column order |
| Synthetic.WeightColumnsDistinct | src/vix_pca/synthetic.py:20 | distinct column names give distinct weight columns |
| Synthetic.RemovePrefix | src/vix_pca/synthetic.py:27 | `removeprefix` drops the prefix when present and otherwise changes nothing |
| Synthetic.OutName | src/vix_pca/synthetic.py:27 | every output name starts with `px_` |
| Synthetic.OutNameInjective | src/vix_pca/synthetic.py:27 | distinct weight columns get distinct output names |
| Synthetic.OutNameOfTenor | src/vix_pca/synthetic.py:27 | the weighter's `weight_{T}d` becomes `px_{T}d` |
| Synthetic.OutNameExample | src/vix_pca/synthetic.py:27 | `weight_30d` becomes `px_30d` |
| Synthetic.OutNames | src/vix_pca/synthetic.py:24-29 | one output name per weight column |
| Synthetic.OutNamesDistinct | src/vix_pca/synthetic.py:24-31 | the output names are distinct and never `tradingDay` |
| Synthetic.Numeric | src/vix_pca/synthetic.py:25 | a column can be multiplied exactly when it is not text, and keeps its length |
| Synthetic.Products | src/vix_pca/synthetic.py:25 | one product per row |
| Synthetic.InsertDaySpec | src/vix_pca/synthetic.py:31 | inserting a day keeps the days strictly ascending and adds exactly that day |
| Synthetic.ConsIncreasing | src/vix_pca/synthetic.py:31 | a day below every listed day can go in front |
| Synthetic.SortedDays | src/vix_pca/synthetic.py:31 | the groups after `sort(day)`: strictly ascending, and exactly the trading days present |
| Synthetic.DaySums | src/vix_pca/synthetic.py:26 | one sum per day |
| Synthetic.SynthColumns | src/vix_pca/synthetic.py:24-29 | one aggregated column per weight column, or a type error naming a weight column |
| Synthetic.Build | src/vix_pca/synthetic.py:17-31 | fails with missing columns exactly when the day or price column is absent; reports no weight columns exactly when both are present and no name starts with `weight_`; a result is named `tradingDay` then `px_…` per weight column |
| Synthetic.SynthColumnsAt | src/vix_pca/synthetic.py:24-29 | column j is the per-day sum of close × the j-th weight column |
| Synthetic.BuildDays | src/vix_pca/synthetic.py:31 | the result has one row per distinct trading day, in strictly ascending day order, and one column per weight column plus the day |
| Synthetic.BuildWellFormed | src/vix_pca/synthetic.py:24-31 | the result is a well-formed table: distinct names and every column one value per day |
| Synthetic.BuildValues | src/vix_pca/synthetic.py:24-31 | the value of weight column w on day D is the sum over D's rows of close × w |
| Synthetic.SynthColumnsErr | src/vix_pca/synthetic.py:24-29 | the aggregation fails exactly when some weight column is text |
| Synthetic.BuildErrTypes | src/vix_pca/synthetic.py:24-31 | with the required columns and some weight column, the build fails exactly when a column it reads has the wrong type |
| Synthetic.TableWellFormed | src/vix_pca/synthetic.py:31 | a day column with columns of its length under distinct names is a well-formed table |
| Frames.IndexOfName | src/vix_pca/synthetic.py:25 | `pl.col(name)` finds the first column of that name |
| Frames.IndexOfNameAppend | src/vix_pca/weights.py:20 | appending a column leaves the position of every existing name unchanged |
| Frames.GroupSumAbsent | src/vix_pca/synthetic.py:26 | a day with no rows sums to zero |
| Frames.GroupSumNonNegative | src/vix_pca/synthetic.py:26 | a sum of non-negative values is non-negative |
| Synthetic.GroupSumScale | src/vix_pca/synthetic.py:26 | scaling every value scales a day's sum |
| Synthetic.SyntheticAbove | src/vix_pca/synthetic.py:24-29 | with non-negative weights a day's synthetic price is at least its lowest close times its total weight |
| Synthetic.SyntheticBelow | src/vix_pca/synthetic.py:24-29 | with non-negative weights it is at most the highest close times the total weight |
| Synthetic.SyntheticBetween | src/vix_pca/synthetic.py:24-29 | with non-negative weights summing to one, a day's synthetic price lies between its lowest and highest close |
| Synthetic.MulMono | src/vix_pca/synthetic.py:25 | multiplying by a non-negative weight keeps order |
| Synthetic.GroupSumMonoOn | src/vix_pca/synthetic.py:26 | a day's sum is monotone in the values of that day's rows |
| Synthetic.BuildOkForm | src/vix_pca/synthetic.py:17-31 | how a successful build is put together: reads, weight columns, day order and aggregated columns |
| Synthetic.BuildOkWhen | src/vix_pca/synthetic.py:17-31 | when every read succeeds, the build is the sorted day column followed by the aggregated columns |
| Synthetic.OneDayWeightColumns | src/vix_pca/synthetic.py:20 | in (tradingDay, close, weight_30d) the only weight column is `weight_30d` |
| Synthetic.OneDayReads | src/vix_pca/synthetic.py:18-25 | the two-row example table is well formed and its columns read as expected |
| Synthetic.OneDaySums | src/vix_pca/synthetic.py:24-29 | two rows on one day aggregate to c1·w1 + c2·w2 |
| Synthetic.OneDayNames | src/vix_pca/synthetic.py:27 | the example's output names are `tradingDay`, `px_30d` |
| Synthetic.BuildOneDay | src/vix_pca/synthetic.py:17-31 | two contracts on one day make one row whose price is the weighted sum of their closes (17.5 for closes 10, 20 and weights 0.25, 0.75) |

## Left out

- File I/O is not modelled: reading the expiry file, `splitlines`,
  `rglob`, path sorting, CSV and parquet reading and writing. The model
  takes the expiry file's lines and the CSV files as a sequence of batches
  in sorted path order.
- The conversion to America/Chicago is not modelled, nor the time-zone
  database and daylight-saving rules. Timestamps are integers already in
  the reference zone.
- Lenient `strptime` parsing of the `timestamp` and `tradingDay` columns
  is not modelled. Rows whose day or time fails to parse would be null;
  null days, timestamps and closes are not modelled.
- Strings are ASCII only. `strip`, `upper`, `lower`, `\d` and `\s` keep
  their ASCII behaviour; Python's Unicode whitespace, case mapping and
  digits are left out.
- The `%d %B %Y` parser accepts one- or two-digit days (`DayToken`) and
  any run of ASCII whitespace where the format has a space (`SkipSpaces`).
  Non-ASCII digits and non-ASCII whitespace, which `strptime` also
  accepts, are left out.
- The model uses exact reals, not IEEE-754 floats. Sum-to-one therefore
  holds exactly rather than within the 1e-6 tolerance of the sanity check.
- Integer × integer products in the synthetic sum are computed as reals.
  polars would keep an integer column.
- The model only computes `weight_{int(float(t))}d` for integer tenors, so
  `int(float(t)) == t`. Tenors too large for a float to hold exactly are
  not modelled.
- Sort stability and the row order of hash group-bys and joins are not
  modelled. Results are stated for the order the source requests.
- TermStructure.Closest: ties on `abs_diff` are resolved by the earliest
  row, but its contract promises only minimality, because polars'
  default sort is not stable.
- The check that `_pick_close_near_255_ct` makes with
  `require_columns(["timestamp", "tradingDay", "close"])` is not modelled
  separately. Typed rows always carry these fields, and a file lacking
  them is already skipped by `read_csv`.
- Weights.KeysOf: the key columns must have the types the term stage
  produces: integer days, text symbols and integer `ttm_days`. Any other
  type is a `ColumnType` error.
- Synthetic.Build: three type restrictions that polars does not make.
  - The day column must be an integer (date) column. polars would also
    group by a text or float day column.
  - A text close or weight column is a `ColumnType` error. polars also
    fails on such a column; only the kind of exception differs.
  - The order in which these type errors are reported (day, close, then
    the weight columns in order) is a choice of the model.
- Only the builder's default configuration is modelled: `close`,
  `tradingDay`, `weight_`, `px_`.
- The `__main__` blocks, `Paths`, `ensure_dir` and the command-line entry
  points are not part of this model.
