# Horizontalizing sensor readings into ten-minute means

This project models the core of `process.py`. The program reads a gzip CSV of
sensor readings (asset, date, time, raw variable code, value) in chunks,
translates each raw code into a variable name through a per-asset translation
table, and reduces the readings to a wide table: one row per asset and
ten-minute bucket, and one column per variable name, each cell holding the
mean of the non-null values that fall into it.

The model has four modules, plus the `Wrappers` module (`Option` and `Result`).

- `Translations` (`translate`) builds the two-level map
  asset -> code -> name. It works over the asset elements of the XML document,
  given in document order, and a later duplicate overwrites an earlier one.
- `TimeBuckets` (`timer`) holds three pieces:
  - a strict parser for the layout `YYYY-MM-DDHH:MM` that strptime accepts,
    which fails where strptime raises ValueError;
  - CPython's `calendar.timegm`, built on the proleptic Gregorian day
    ordinal;
  - the rounding `600 * (t // 600 + 1)` to the end of the window. Dafny's
    `/` is Euclidean, which for the positive divisor 600 is Python's `//`,
    negative `t` included.
- `Aggregation` holds the (sum, count) algebra:
  - `mapper`, which pandas' pivot_table applies to each cell of a chunk;
  - `reducer`, which the final groupby applies to the column of per-chunk
    pairs, with its try branch, its TypeError branch and its fall-through
    to None;
  - the key-wise merge of accumulator maps.
- `Horizontal` (`horizontalize`) gives three descriptions of the same
  computation and proves them equal:
  - `Pipeline` follows the source's data flow. It translates every chunk,
    pivots each one, appends the pivots, computes the buckets after the loop
    (a malformed date or time then fails the whole call), and reduces each
    (asset, unixtime, variable) column with the reducer.
  - `Expected` is the meaning: each cell's mean over the whole file, however
    the file is split into chunks.
  - `Horizontalize` keeps the chunk loop as a method (`Accumulate`), which
    merges each chunk's pivot into one accumulator map.

How a reading's date and time become a bucket is the function parameter
`Stamp`. The chunking lemmas hold for any such function. `Horizontalize`
instantiates it with `Bucket`, which is `timer(date + time[:4])`.

Errors are values (`Horizontal.Error`):

- `UnknownAsset` and `UnknownCode` are the KeyError of the translation
  lookup, and they end the loop at the chunk where they occur.
- `BadTimestamp` is strptime's ValueError. It is raised only after the loop,
  so a translation error in any chunk takes precedence over it.
- `NoData` is the KeyError on the `date` column of the empty frame, raised
  when the file yields no chunk.

## Model

| member | source | states |
|---|---|---|
| Translations.Inner | process.py:12-13 | a code is in the inner map exactly when some translation element names it as its src |
| Translations.Translate | process.py:12-15 | an asset is in the table exactly when some asset element carries that name |
| Translations.InnerLastWins | process.py:12-13 | a code maps to the dest of the last translation element that names it (duplicates overwrite) |
| Translations.TranslateLastWins | process.py:12-15 | an asset maps to the inner map of the last element with that name, so a repeated asset replaces, and does not extend, the earlier codes |
| TimeBuckets.ParseStamp | process.py:37-38 | strptime's result, when there is one, is a real calendar instant whose minute is read from the last two characters |
| TimeBuckets.ParseFormat | process.py:37-38 | every valid instant, written in the layout, parses back to itself |
| TimeBuckets.FormatParse | process.py:37-38 | every string strptime accepts is the layout of its own fields, so parsing loses nothing |
| TimeBuckets.YearsOrdered | process.py:37 | the day ordinals of later years start after every day of an earlier year |
| TimeBuckets.OrdinalInYear | process.py:37 | every date of a year has an ordinal within that year's range |
| TimeBuckets.OrdinalInjective | process.py:37 | distinct valid dates have distinct day ordinals |
| TimeBuckets.TimeGm | process.py:37 | calendar.timegm as seconds since 1970-01-01 from the day ordinal; TimeGmInjective states it is injective, TimerRollsForward that it is the window start, ExampleInstants that 2015-05-01 00:00 UTC is 1430438400 |
| TimeBuckets.TimeGmInjective | process.py:37 | timegm sends distinct valid instants to distinct Unix times |
| TimeBuckets.Timer | process.py:35-38 | timer yields a value exactly when strptime accepts x + '0', and that value is a multiple of 600 |
| TimeBuckets.TimerRollsForward | process.py:37-38 | the parsed instant starts its window (timegm is a multiple of 600), and timer returns the next multiple of 600, strictly after it and at most 600 s later |
| TimeBuckets.TimerInjective | process.py:35-38 | two strings that timer accepts share a bucket only when they are equal |
| TimeBuckets.TimerIsCeiling | process.py:35-38 | every valid instant t at any minute, written in the layout and cut to 14 characters, is timed to 600 * (t // 600 + 1), strictly after t and at most 600 s later |
| TimeBuckets.WindowOffset | process.py:37-38 | the start of an instant's ten-minute window is a multiple of 600 and lies less than 600 s before the instant |
| TimeBuckets.SameWindowPrefix | process.py:38 | an instant and the start of its window agree in the first 14 characters of the layout, so timer cannot tell them apart |
| TimeBuckets.TimerOfFormatted | process.py:35-38 | the first 14 characters of the layout of a window start are timed to that start plus 600 |
| Aggregation.Quotient | process.py:28 | the division gives NaN exactly for count 0 and a mean exactly for count above 0, never Null, and the mean times the count is the sum |
| Aggregation.Mapper | process.py:18-20 | mapper folded over the values of one cell; MapperSkipsNulls states that it is the sum and the number of the non-null values |
| Aggregation.MapperSkipsNulls | process.py:18-20 | mapper yields the sum and the number of the non-null values only |
| Aggregation.MapperConcat | process.py:18-20 | mapper of two blocks of values is the component-wise sum of their mappers |
| Aggregation.NullChangesNothing | process.py:18-20 | a null value anywhere in a cell changes neither sum nor count |
| Aggregation.Reducer | process.py:23-32 | reducer returns None exactly when every entry of the column is missing |
| Aggregation.ReducerDropsMissing | process.py:23-32 | the try branch and the TypeError branch agree: the quotient of the total of the non-missing pairs, else None |
| Aggregation.Merge | process.py:50-56 | accumulators added key by key; GetMerge states that a merged pair is the sum of the two pairs, a missing one counting as (0, 0), and MergeCommutes and MergeAssociates that neither order nor grouping matters |
| Aggregation.MergeAll | process.py:50-56 | the per-chunk pivots merged in order; MergeAllPivots states that this is the pivot of the whole file, and EntriesTotal that the reducer's column adds up to it |
| Aggregation.MergeCommutes | process.py:50-53 | merging two accumulators does not depend on their order |
| Aggregation.MergeAssociates | process.py:50-53 | merging accumulators does not depend on their grouping |
| Horizontal.SameBucketIffSameWindow | process.py:47-54 | two readings share a bucket exactly when date + time[:4] is the same string |
| Horizontal.ExampleBuckets | process.py:47-54 | readings from 2015-05-01 00:00 to 00:09 UTC get bucket 1430439000, and those of the next window get 1430439600 |
| Horizontal.Truncate | process.py:47 | x[:4]: a prefix of the time, of length four or the whole string when shorter |
| Horizontal.Bucket | process.py:47-54 | timer(date + time[:4]) is defined exactly when strptime accepts date + time[:4] + '0', and is a multiple of 600; BucketIsCeiling states which multiple |
| Horizontal.BucketIsCeiling | process.py:35-38 | a reading at any valid instant t, written as date and time columns, gets bucket 600 * (t // 600 + 1), the smallest multiple of 600 strictly above t |
| Horizontal.Normalize | process.py:48-49 | the lookup fails exactly when the asset or its code is missing, with KeyError on the asset first; a translated row keeps asset and value and carries the dest name and the bucket |
| Horizontal.NormalizeAll | process.py:47-49 | the chunk translated reading by reading up to the first KeyError; NormalizeAllMeaning states it pointwise |
| Horizontal.NormalizeAllMeaning | process.py:47-49 | a translated chunk has one row per reading, row i from reading i; a failure is the KeyError of the first reading whose asset or code the table lacks |
| Horizontal.RowOfReading | process.py:47-49 | a translated row keeps its reading's asset and carries its reading's bucket |
| Horizontal.MalformedMeaning | process.py:54 | a chunk is malformed exactly when some row's date and time are rejected by timer |
| Horizontal.KeysMeaning | process.py:50-53 | a cell is in a chunk's pivot exactly when some row of the chunk feeds it |
| Horizontal.ValuesAtKeys | process.py:50-53 | a cell is in the pivot exactly when it receives at least one value, null or not |
| Horizontal.Pivot | process.py:50-53 | pivot_table with the mapper; KeysMeaning states which cells it has, CellIsMeanOfNonNull what each yields, PivotConcat that it splits over blocks of rows |
| Horizontal.PivotConcat | process.py:50-53 | the pivot of two blocks of rows is the merge of their pivots |
| Horizontal.PivotOrderIndependent | process.py:50-53 | swapping two blocks of rows leaves the pivot unchanged |
| Horizontal.MergeAllPivots | process.py:45-53 | the merged per-chunk pivots are the pivot of the whole file |
| Horizontal.NormalizeChunksFlatten | process.py:45-49 | translating chunk by chunk gives the translation of the concatenated file, including its first KeyError |
| Horizontal.ErrorEndsPipeline | process.py:45-49 | once a chunk fails to translate, the later chunks do not change the result |
| Horizontal.NormalizeChunks | process.py:45-49 | the translation step of the chunk loop up to the first KeyError; NormalizeChunksFlatten states that it is the translation of the concatenated file |
| Horizontal.AnyMalformedFlatten | process.py:54 | some chunk is malformed exactly when the whole file is |
| Horizontal.Accumulate | process.py:44-53 | the chunk loop ends with the first KeyError of the file, or with the merged pivots of all chunks and whether any row is malformed |
| Horizontal.Entries | process.py:54-56 | the column of one (asset, unixtime, variable) group is non-empty for every output row; EntriesTotal states what its pairs add up to |
| Horizontal.EntriesTotal | process.py:50-56 | the column the reducer receives holds a pair exactly when the merged accumulator has the cell, and its pairs add up to the merged pair |
| Horizontal.ReducedCell | process.py:56 | the reducer on an (asset, unixtime, variable) column is the cell of the merged accumulator |
| Horizontal.ReducedRow | process.py:56 | the reducer applied to every column of one group; ReducedRowIsFinal states that it is the row of the merged accumulator |
| Horizontal.Grouped | process.py:54-56 | groupby(['asset', 'unixtime']).agg(reducer); GroupedIsFinalize states that it is the table of the merged accumulator |
| Horizontal.GroupedIsFinalize | process.py:54-56 | groupby(['asset', 'unixtime']).agg(reducer) over the appended pivots is the table of the merged accumulator |
| Horizontal.Horizontalize | process.py:41-56 | the method returns the source's pipeline result and, for a non-empty file, the per-cell means over the whole file |
| Horizontal.Pipeline | process.py:41-56 | the source's data flow; PipelineMeaning states that it returns the whole-file result for any split, and Horizontalize that the chunk loop computes it |
| Horizontal.PipelineMeaning | process.py:41-56 | for any non-empty split into chunks, the source's data flow returns the whole-file result: first KeyError, else BadTimestamp, else the table of means |
| Horizontal.ChunkingInvariant | process.py:45-53 | two non-empty splits of the same readings into chunks give the same result (the empty split is `NoData`, while a split into one empty chunk gives an empty table) |
| Horizontal.OutputRowsOccur | process.py:54-56 | the table has a row for (asset, unixtime) exactly when some reading of that asset falls in that bucket |
| Horizontal.CellIsMeanOfNonNull | process.py:50-56 | each cell is the mean of the non-null values fed to it over the file; a cell fed only nulls is NaN; a cell no reading fed is missing (Null) |

## Left out

- XML parsing and gzip decompression in `translate`. The document is given
  as its asset elements, in order, as `Translations.AssetEntry` values. A
  translation element without `src` or `dest` (AttributeError on `.text`) is
  outside the model, and so is an asset element without a `name` attribute.
- Translations.AssetEntry: a `src` or `dest` element that is present but empty
  (`<dest/>`) has `.text` None, and `translate` stores None in the table. A
  reading with that code then passes the lookup at process.py:48 and gets the
  variable None, and pandas drops the None-keyed group from the pivot without
  an error. The model's pairs of strings cannot express a None name, so these
  readings are not modelled.
- pandas I/O: `read_csv` chunking of 10**6 rows, gzip, and the CSV columns'
  types. The file is given as a sequence of chunks of `Horizontal.Reading`,
  of any sizes, since the result does not depend on how a non-empty split
  is made (`ChunkingInvariant`). The inner workings of pivot_table, append, groupby
  and agg are modelled by their meaning on sequences and maps.
- Floats: values, sums and means are exact reals. The `round(..., 5)` of
  the reducer is left out, so `Aggregation.Quotient` is the unrounded
  division.
- Aggregation.Reducer: a group handed to the reducer is never empty, so the
  contract requires a non-empty column. It does not model the
  IndexError of an empty one, which the groupby cannot produce.
- TimeBuckets.ParseStamp: it accepts only the fixed two- and four-digit
  layout. strptime also accepts single-digit fields, leading spaces and
  non-ASCII digits; a time column whose first four characters are not
  `HH:M` is therefore rejected here where strptime might accept it.
- Horizontal.Pipeline: a pivoted row is keyed by its bucket, and not by the
  (date, time[:4]) pair that the source's pivot_table index holds. Distinct
  pairs can share a bucket: ("2015-05-010", "0:0") and ("2015-05-01", "00:0")
  concatenate to the same string "2015-05-0100:0". The source keeps such rows
  as two entries of one reducer column, and the model merges them into one.
  The results agree because the reducer depends only on the total of the
  non-missing pairs and on whether any pair is present
  (`Aggregation.ReducerDropsMissing`), and merging keeps both.
- The order of the output: the table is a map from (asset, unixtime) to a map
  from variable name to cell, so neither row order nor column order is
  modelled. The `asset`, `date` and `time` index columns and the dropped
  columns are not modelled either.
- Horizontal.Error: `BadTimestamp` does not record which row strptime rejected,
  nor the ValueError's message.
- The `process` driver: os.listdir, the `.csv.gz` filter, wall-clock timing,
  print, to_csv and the module-level call (process.py:59-72).
- report.py is not part of this model. It plots and computes floating-point
  statistics over the output and has no contract to state.
- A cell whose contributing values are all null gets `NaN`. pandas' `sum()`
  and `count()` give `(0.0, 0)` for it, numpy's 0.0 / 0 is nan, and `reducer`
  does not guard the division (process.py:28, process.py:32). `Null` is kept
  for a cell that nothing fed and for a reducer column whose entries are all
  missing, where `reducer` returns None.
