# Amazon ratings pipeline — a verified model

The pipeline runs in three stages, and the model covers the logic of each.

- **Ingestion** (`ingestion/main.py`) reads a CSV of product ratings. It lowercases the header and keeps the columns `userid, productid, rating, timestamp`. It converts the timestamp column from UNIX seconds, keeps the rows of one calendar month, and loads them into the table `ratings_month_<m>`.
- **Preprocessing** (`preprocessing/main.py`) reads that table. It drops rows with a missing field and exact duplicates, then averages the ratings of each product. Finally it publishes the result:
  - Spark writes into `/output/tmp_ratings_month_<m>`.
  - The first `part-*.csv` found there is renamed onto `/output/aggregated_ratings_month_<m>.csv`, after any earlier file at that path has been removed.
- **Delivery** (`delivery/main.py`) serves that file for `GET /data/<m>`, or answers 404.

## Modules

| module | contents |
|---|---|
| `Wrappers` | `Option` and `Result` |
| `Sequences` | `Distinct`, `IsSubsequence` and the order-preserving `Filter` |
| `Decimal` | Python's `str(int)` and `int(str)` on ASCII numerals, with CPython's limit of 4300 digits |
| `CommandLine` | `int(sys.argv[1]) if len(sys.argv) > 1 else 6` |
| `Calendar` | POSIX seconds since the Epoch (XBD section 4.16 of POSIX.1-2017, proleptic Gregorian calendar, no leap seconds) |
| `Ingestion` | the pandas frame, and `filter_monthly_data` step by step |
| `Cleaning`, `Aggregation` | `dropna().dropDuplicates()` and `groupBy("productid").agg(avg("rating"))` |
| `Files` | the `/output` volume as a map from paths to contents. A `FileSystem` class whose methods are Spark's overwrite writer, `glob.glob`, `os.path.exists`, `os.remove` and `os.rename`, with a ghost history of every state the volume passes through |
| `Preprocessing` | the path names, the publish sequence, and `main` |
| `Delivery` | the artifact lookup |

## Where the code and the design intent differ

A reader of the comment on line 54 of preprocessing/main.py ("the file is replaced if it already exists") would expect the artifact to be replaced in one step. The code does not do that:

- It calls `os.remove(final_path)` and then `os.rename(part, final_path)`.
- Between the two calls the artifact does not exist.

The model follows the code:

- `Preprocessing.Promote` records that intermediate state in the history.
- `Preprocessing.PublishHistory` lists the states a publish passes through; the one before the rename never holds the artifact.
- `Delivery.NotFoundBetweenRemoveAndRename` shows that a request in that state gets 404, even when the month was served before the run.
- Nothing in the model claims atomic replacement.

## Model

| member | source | states |
|---|---|---|
| CommandLine.MonthArgument | preprocessing/main.py:19 | The month argument, `int(sys.argv[1])` or 6; characterised by `CommandLine.MonthArgumentCases` (ingestion/main.py:74 is the same expression). |
| CommandLine.MonthArgumentCases | preprocessing/main.py:19 | No argument gives month 6. The numeral of an integer m gives m, whatever arguments follow, exactly when it has at most 4300 digits; a longer one is rejected. A non-numeral such as "June", or an empty argument, is rejected (the uncaught ValueError). |
| CommandLine.MonthArgumentFormattable | preprocessing/main.py:19-22 | Every accepted month has a numeral within the 4300-digit limit, so `str(month)` in the f-strings of lines 20-22 never raises. |
| Decimal.IntToString | preprocessing/main.py:20 | `str(n)`, as an f-string inserts it: non-empty, with a leading '-' exactly for negative n; inverted by `Decimal.ParseInt` (`Decimal.ParseIntOfIntToString`) and injective (`Decimal.IntToStringInjective`). |
| Decimal.ParseInt | preprocessing/main.py:19 | `int(s)`: whitespace, an optional sign and digit groups, None for the ValueError. A literal with more than 4300 digits (underscores not counted) is rejected, and any other reads as `Decimal.IntegerLiteral`; characterised by `Decimal.ParseIntOfIntToString`, `Decimal.ParseIntRejectsNonNumeral` and `Decimal.ParseIntWithinStrLimit`. |
| Decimal.IntegerLiteralOfIntToString | ingestion/main.py:74 | Reading an integer literal of any length inverts `str`: the value of the numeral of n is n, negative n included. |
| Decimal.ParseIntOfIntToString | ingestion/main.py:74 | `int(str(n)) == n` exactly when the numeral of n has at most 4300 digits; otherwise `int` raises ValueError. |
| Decimal.ParseIntWithinStrLimit | ingestion/main.py:74 | Every number `int` returns has a numeral of at most 4300 digits, as many as the literal it was read from at most. |
| Decimal.ParseIntRejectsNonNumeral | ingestion/main.py:74 | `int` rejects a string that begins with neither a sign, a digit nor whitespace (and does not end in whitespace): it is no integer literal. |
| Decimal.IntToStringInjective | preprocessing/main.py:20-22 | Two integers format to the same numeral iff they are equal. |
| Calendar.DayOfYear | ingestion/main.py:30 | The zero-based day of the year of a valid date is less than the length of its year. |
| Calendar.CivilFromDays | ingestion/main.py:30 | For every day count since 1970-01-01, including negative ones, returns a valid Gregorian date that is that many days after the Epoch. |
| Calendar.EpochDayInjective | ingestion/main.py:30 | Two valid dates with the same day count are the same date. |
| Calendar.CivilFromDaysOfEpochDay | ingestion/main.py:30 | Converting a valid date to its day count and back returns the same date. |
| Calendar.PosixAgreesWithCalendar | ingestion/main.py:30 | For every year, the leap-day terms of the XBD 4.16 expression (divisions rounding down) count the same days as a year-by-year walk from 1970. |
| Calendar.Gmtime | ingestion/main.py:30 | For every integer s, returns a valid broken-down UTC time whose XBD 4.16 value is s. |
| Calendar.GmtimeOfPosixSeconds | ingestion/main.py:30 | Gmtime inverts the XBD 4.16 expression on every valid broken-down time. |
| Calendar.MonthOfSeconds | ingestion/main.py:32 | The month of any timestamp is in 1..12. |
| Calendar.ExampleTimestamp | ingestion/main.py:31 | 1369699200 is 2013-05-28 00:00:00 UTC, so its month is 5. |
| Ingestion.Lower | ingestion/main.py:28 | `col.lower()` on ASCII; characterised by `Ingestion.LowerNormalises`. |
| Ingestion.LowerNormalises | ingestion/main.py:28 | Lowering keeps the length, leaves no ASCII capital, is idempotent, and leaves a name without capitals unchanged. |
| Ingestion.LowerColumns | ingestion/main.py:28 | Only the header changes (each name lowered). The cells are untouched and rows keep their width. |
| Ingestion.Positions | ingestion/main.py:29 | Lists, in increasing order, positions that all carry the label. |
| Ingestion.PositionsComplete | ingestion/main.py:29 | Every position carrying the label is listed. |
| Ingestion.PositionsEmpty | ingestion/main.py:29 | No position is listed iff the label is absent from the header. |
| Ingestion.Missing | ingestion/main.py:29 | Returns the requested labels absent from the header, and only those, in request order. |
| Ingestion.IndicesCover | ingestion/main.py:29 | Every column carrying a requested label is selected. |
| Ingestion.Select | ingestion/main.py:29 | `df[labels]` succeeds iff every label is present. Otherwise it fails naming exactly the absent labels. On success, the header holds exactly the requested labels and every row is kept. |
| Ingestion.SelectUniqueLabels | ingestion/main.py:29 | When each requested label names one column, the result's header equals the request. Each cell comes from the source column of that label. |
| Ingestion.SecondsToDateTime | ingestion/main.py:30 | Integer seconds convert iff the nanosecond value fits a signed 64-bit integer other than NaT's. Otherwise the result is an out-of-bounds error. |
| Ingestion.ToDateTime | ingestion/main.py:30 | A cell becomes NaT exactly when it is missing, is the int64 NaT marker -2^63, or is one of the strings pandas reads as NaT ("NaT", "nat", "NAT", "NAN", and those `read_csv` already makes missing). Other integers, integer numerals and reals (taken to the second they fall in) convert exactly when that second is representable, and then to that second. A string that is no integer numeral is an error. A timestamp passes through unchanged. |
| Ingestion.NaTMatchesNoMonth | ingestion/main.py:30-32 | A NaT cell converts without error and matches no month, so its row is dropped for every month. |
| Ingestion.ConvertColumn | ingestion/main.py:30 | Succeeds iff every cell of the column converts. Row i is then row i with that one cell converted. |
| Ingestion.ConvertTimestamps | ingestion/main.py:30 | Needs exactly one `timestamp` column, and otherwise reports how many there are. Succeeds iff all its cells convert. Other columns are untouched. |
| Ingestion.KeepMonth | ingestion/main.py:32 | The kept rows are a subsequence of the input in its order. Each kept row's timestamp falls in the month. Every matching row keeps its multiplicity, whatever its year. |
| Ingestion.Prepare | ingestion/main.py:28-30 | The prepared frame is rectangular and has a single timestamp column. |
| Ingestion.FilterMonthlyData | ingestion/main.py:17-34 | Fails iff preparation fails, with the same error. Otherwise the result keeps the prepared header. Its rows are the ordered, multiplicity-preserving selection of the prepared rows in the month. |
| Ingestion.OutOfRangeMonthIsEmpty | ingestion/main.py:32 | A month outside 1..12 selects no row. |
| Ingestion.MonthsPartitionRows | ingestion/main.py:32 | No row is kept for two different months. |
| Ingestion.MonthsCoverRows | ingestion/main.py:32 | A prepared row is kept for month m iff its timestamp is not NaT and falls in m, so each such row is kept for exactly one of the months 1..12. |
| Ingestion.TimestampIsFourth | ingestion/main.py:29-30 | After selection, the timestamp column is the fourth and the only one. |
| Ingestion.SelectUniqueHeader | ingestion/main.py:28-29 | When the lowered header carries each of the four names once, the selected header is `userid, productid, rating, timestamp`. Each row is the source's four matching cells. |
| Ingestion.PrepareUniqueHeader | ingestion/main.py:28-30 | With such a header, preparation succeeds iff every timestamp converts. The rows are then the four source cells with the timestamp converted. |
| Ingestion.PrepareMissingColumn | ingestion/main.py:28-29 | If a header lacks one of the four names after lowering, preparation fails with the KeyError naming the absent ones. |
| Ingestion.SelectedColumnsUnique | ingestion/main.py:29 | Each of the four selected names labels exactly its own position. |
| Ingestion.ExampleHeaderLowers | ingestion/main.py:28 | The header `UserId, ProductId, Rating, Timestamp` lowers to the four selected names, each occurring once. |
| Ingestion.ExampleHeaderColumns | ingestion/main.py:28-29 | In that header, the four names sit at positions 0..3. |
| Ingestion.ExamplePrepared | ingestion/main.py:28-31 | A rating stamped 1369699200 is prepared into the four columns, with its timestamp converted. |
| Ingestion.ExampleMay28 | ingestion/main.py:30-32 | That rating is dropped for June and kept, converted, for May. |
| Ingestion.TableName | ingestion/main.py:76 | The table ingestion loads, `ratings_month_<m>`; characterised by `Ingestion.TableHandOff`. |
| Ingestion.TableHandOff | ingestion/main.py:76 | Ingestion's table for month a is preprocessing's table for month b iff a == b. |
| Ingestion.Ingest | ingestion/main.py:72-76 | A malformed month argument fails before the file is read, and an unreadable file fails next. On success the table is `ratings_month_<m>` and the frame is the month's filtered frame. Success iff preparation succeeds. |
| Ingestion.DefaultIsJune | ingestion/main.py:74-76 | Without an argument, June's rows are loaded into `ratings_month_6`. |
| Cleaning.Complete | preprocessing/main.py:47 | A record without a missing field becomes a row that embeds back to that record. |
| Cleaning.DropNa | preprocessing/main.py:47 | A row is kept iff it is an input record with no missing field. Rows have no nullable field. |
| Cleaning.DropDuplicates | preprocessing/main.py:47 | The result has no repeated row and the same rows as the input. |
| Cleaning.Clean | preprocessing/main.py:47 | The cleaned rows are distinct, and a row is present iff it is a complete input record. |
| Cleaning.DropNaCounts | preprocessing/main.py:47 | Each complete record keeps its multiplicity through dropna. |
| Cleaning.DistinctCounts | preprocessing/main.py:47 | In a sequence without repeats, each element occurs once. |
| Cleaning.CleanCounts | preprocessing/main.py:47 | Each distinct complete record occurs exactly once in the cleaned rows, and nothing else occurs. |
| Cleaning.CleanDependsOnlyOnCompleteRecords | preprocessing/main.py:47 | Two tables with the same complete records clean to the same multiset. |
| Cleaning.CleanIgnoresDuplicate | preprocessing/main.py:47 | Inserting a copy of an existing record anywhere leaves the cleaned multiset unchanged. |
| Cleaning.CleanIgnoresIncomplete | preprocessing/main.py:47 | Inserting a record with a missing field anywhere leaves the cleaned multiset unchanged. |
| Aggregation.Ratings | preprocessing/main.py:50 | The values in the list are exactly the ratings of the product's records; how often each occurs is `Aggregation.RatingsCounts`. |
| Aggregation.RatingsCounts | preprocessing/main.py:50 | Each rating value occurs in a product's list once per record of that product carrying it, so the count behind the mean is the number of the product's records. |
| Aggregation.RatingsPresent | preprocessing/main.py:50 | A product that occurs has at least one rating. |
| Aggregation.Aggregate | preprocessing/main.py:50 | Has one entry per product occurring in the rows, and no other entry. |
| Aggregation.AggregateTable | preprocessing/main.py:47-50 | Clean, then aggregate; characterised by `Aggregation.AggregateTableKeys`, `Aggregation.AggregateDependsOnlyOnCompleteRecords`, `Aggregation.AggregateIgnoresDuplicate` and `Aggregation.AggregateIgnoresIncomplete`. |
| Aggregation.SumConcat | preprocessing/main.py:50 | The sum of a concatenation is the sum of the sums. |
| Aggregation.SumPermutation | preprocessing/main.py:50 | Reordering the ratings does not change their sum. |
| Aggregation.RatingsConcat | preprocessing/main.py:50 | A product's ratings in a concatenation are its ratings in each part, in order. |
| Aggregation.RatingsPermutation | preprocessing/main.py:50 | Reordering the rows reorders each product's ratings and changes nothing else. |
| Aggregation.AggregatePermutationInvariant | preprocessing/main.py:47-50 | The aggregate does not depend on row order. So the row order `dropDuplicates` leaves is irrelevant. |
| Aggregation.AggregateDependsOnlyOnCompleteRecords | preprocessing/main.py:47-50 | Tables with the same complete records have the same aggregate. |
| Aggregation.AggregateIgnoresDuplicate | preprocessing/main.py:47-50 | Adding an exact duplicate of a record leaves the aggregate unchanged. |
| Aggregation.AggregateIgnoresIncomplete | preprocessing/main.py:47-50 | Adding a record with a missing field leaves the aggregate unchanged. |
| Aggregation.AggregateTableKeys | preprocessing/main.py:47-50 | A product has an entry iff some complete record carries it. The aggregate is empty iff every record is incomplete. |
| Aggregation.SumBounds | preprocessing/main.py:50 | n ratings within [lo, hi] sum to between n·lo and n·hi. |
| Aggregation.MeanBounds | preprocessing/main.py:50 | The mean of ratings within [lo, hi] is within [lo, hi]. |
| Aggregation.Least | preprocessing/main.py:50 | Returns a rating that is no greater than any other. |
| Aggregation.Greatest | preprocessing/main.py:50 | Returns a rating that is no smaller than any other. |
| Aggregation.AggregateWithinBounds | preprocessing/main.py:50 | If all of a product's ratings lie in [lo, hi], so does its average. |
| Aggregation.AggregateBetweenExtremes | preprocessing/main.py:50 | Each average lies between some rating of that product and some other rating of it. |
| Aggregation.ExampleClean | preprocessing/main.py:47 | A duplicated record and a record without a rating are dropped, in a four-record table. |
| Aggregation.ExampleAggregate | preprocessing/main.py:50 | Ratings 5 and 3 of one product average 4. |
| Aggregation.ExampleTable | preprocessing/main.py:47-50 | The four-record table aggregates to `{p1: 4.0}`. |
| Files.PartFiles | preprocessing/main.py:56 | The set `glob.glob(f"{dir}/part-*.csv")` draws from; characterised by `Files.PartFilesAfterReplace` and `Preprocessing.StagedPartFiles`. |
| Files.Child | preprocessing/main.py:56 | `dir/name` lies below dir, and its remainder after `dir/` is name. |
| Files.ReplaceTree | preprocessing/main.py:55 | An overwrite leaves paths outside dir alone and writes every entry below dir. Everything left below dir is one of the entries. |
| Files.PartFilesAfterReplace | preprocessing/main.py:55-56 | After an overwrite, the matches of `part-*.csv` are exactly the part files just written. |
| Files.Moved | preprocessing/main.py:60 | After a rename, dst holds src's contents, src is gone, and nothing else changes. |
| Files.FileSystem.Exists | preprocessing/main.py:58 | Reports whether the path exists. |
| Files.FileSystem.Remove | preprocessing/main.py:59 | Removes the path. Fails iff it was absent. Records the new state. |
| Files.FileSystem.Rename | preprocessing/main.py:60 | Fails iff src is absent. Otherwise the volume becomes `Moved` and the state is recorded. |
| Files.FileSystem.Overwrite | preprocessing/main.py:55 | The volume becomes `ReplaceTree` of the previous one, and the state is recorded. |
| Files.FileSystem.Glob | preprocessing/main.py:56 | Lists every part file below dir, each once; the listing order is left open. |
| Preprocessing.TableName | preprocessing/main.py:20 | `ratings_month_<m>`; characterised by `Preprocessing.NamesIdentifyMonth` and `Ingestion.TableHandOff`. |
| Preprocessing.StagingDir | preprocessing/main.py:21 | `/output/tmp_ratings_month_<m>`; characterised by `Preprocessing.NamesIdentifyMonth` and `Preprocessing.FinalPathOutsideStaging`. |
| Preprocessing.FinalPath | preprocessing/main.py:22 | `/output/aggregated_ratings_month_<m>.csv`; characterised by `Preprocessing.NamesIdentifyMonth`, `Preprocessing.FinalPathOutsideStaging` and `Delivery.ServesPublishedArtifact`. |
| Preprocessing.PrefixedInjective | preprocessing/main.py:20-22 | Within a fixed prefix and suffix, equal names have equal middles. |
| Preprocessing.NamesIdentifyMonth | preprocessing/main.py:20-22 | Each of the table name, staging directory and artifact path is equal for two months iff the months are equal. |
| Preprocessing.FinalPathOutsideStaging | preprocessing/main.py:21-22 | No month's artifact equals, or lies below, any month's staging directory. |
| Preprocessing.Staged | preprocessing/main.py:55 | The Spark write leaves the artifact path exactly as it was. |
| Preprocessing.StagedPartFiles | preprocessing/main.py:55-56 | The glob after the write sees exactly the writer's part files, and none from an earlier run. |
| Preprocessing.Promoted | preprocessing/main.py:58-60 | The artifact holds src's contents, src is gone, and every other path is unchanged. |
| Preprocessing.Promote | preprocessing/main.py:58-60 | The volume ends as `Promoted`. The history shows the state without the artifact whenever one existed before. |
| Preprocessing.PublishHistory | preprocessing/main.py:55-60 | The states of a publish of part file src: the staged volume first, the promoted volume last, and before it a volume without the artifact. |
| Preprocessing.PartFileIsNotArtifact | preprocessing/main.py:56-60 | The glob never returns the artifact path, so the rename has distinct source and target. |
| Preprocessing.Publish | preprocessing/main.py:55-60 | Publishes nothing iff the writer left no part file, and then only the write happened. Otherwise some written part file is promoted, and the history is the old history followed by `PublishHistory`. |
| Preprocessing.PromoteKeepsOtherArtifacts | preprocessing/main.py:58-60 | Promoting a part file of month n leaves the artifact of every other month as it was. |
| Preprocessing.PublishedArtifact | preprocessing/main.py:56-60 | After publishing part file src, the artifact holds the writer's contents for src and src is gone. Every path outside the staging directory other than the artifact is as before the run. |
| Preprocessing.PublishIdempotent | preprocessing/main.py:55-60 | With a single part file, any two runs with the same data publish the same bytes, whatever the volume held before. |
| Preprocessing.StagingLeavesArtifact | preprocessing/main.py:55-57 | A write into any staging directory, complete or aborted, leaves every artifact byte-for-byte as before. |
| Preprocessing.ExitStatus | preprocessing/main.py:64-66 | Status is 0 iff the run completed, and 1 otherwise; what each status means for the artifacts is stated by `Preprocessing.Run`. |
| Preprocessing.ReadTable | preprocessing/main.py:37-43 | Returns the month's records iff the store is reachable and holds the table. Otherwise it reports which of the two failed. |
| Preprocessing.Run | preprocessing/main.py:17-66 | A bad argument or a failed read changes nothing. An aborted write leaves only the staging directory changed. A completed run yields the aggregate of the table's records and publishes as `Publish` does, with the same files and the same history (including the state without the artifact). For the failures the model has (argument, read, write), a run with exit status 1 leaves every month's artifact as it was; a run with status 0 leaves every other month's artifact as it was. |
| Delivery.Join | delivery/main.py:13 | `os.path.join` for two components; characterised by `Delivery.ServesPublishedArtifact`. |
| Delivery.ArtifactPath | delivery/main.py:13 | The path looked up for a month; equal to `Preprocessing.FinalPath` by `Delivery.ServesPublishedArtifact`. |
| Delivery.GetMonthlyAggregated | delivery/main.py:12-17 | Sends the artifact's contents as text/csv iff the artifact exists, and otherwise answers 404. |
| Delivery.ServesPublishedArtifact | delivery/main.py:13 | The path delivery looks up for month m is the artifact path preprocessing writes for m. |
| Delivery.ServesAfterPublish | delivery/main.py:13-17 | After a publish, the month's request is answered with the contents the writer put in the part file. |
| Delivery.NotFoundBetweenRemoveAndRename | delivery/main.py:14-15 | Over the states of `Preprocessing.PublishHistory`: the month is answered as before the run in the first, with 404 in the state before the rename of line 60 of preprocessing/main.py, and with a file in the last. |
| Delivery.StagingKeepsResponse | delivery/main.py:13-17 | A write into any staging directory leaves every month's response unchanged. |

## Left out

- Reading the CSV (`pd.read_csv`) is not modelled. Its result is an input to `Ingestion.Ingest`, with None for a read failure.
- The PostgreSQL load (`send_to_postgres`: connection, DROP/CREATE, row-by-row INSERT) is database I/O. The model stops at the table name and the frame to be loaded.
- The Spark session and JDBC read are network I/O. The store is an input; `ReadTable` gives its outcomes.
- Spark's CSV writer internals are not modelled: part-file naming, `_SUCCESS` and `.crc` side files, and the header and number formats of the written file.
- Preprocessing.Run: the writer's files, and whether it aborts, are inputs. The published bytes are therefore not derived from the computed aggregate.
- Preprocessing.Run: no failure after line 58 is modelled: neither an error of `os.remove` or `os.rename` (lines 59-60) nor one of `spark.stop()` (line 62). In the source these are caught by the same `try` and give status 1 after the artifact was removed or replaced, so its status-1 clause covers only the argument, read and write failures the model has.
- The Flask application is HTTP plumbing: routing, the index route, `jsonify` and `send_file`. Only the route's lookup is modelled.
- Aggregation.Aggregate: ratings are exact reals, so IEEE rounding of `avg` is not modelled. A NaN rating is represented as a missing field, which `dropna` removes as Spark does.
- Cleaning.DropDuplicates: keeps first occurrences. Spark leaves the order of surviving rows unspecified. `AggregatePermutationInvariant` proves the aggregate does not depend on that order.
- Decimal.ParseInt: the digit limit is fixed at CPython's default of 4300. `PYTHONINTMAXSTRDIGITS`, `-X int_max_str_digits` and `sys.set_int_max_str_digits` can change it, and Pythons without the limit accept any length.
- Decimal.IntToString: total, whereas CPython's `str` raises ValueError for a number of more than 4300 digits. The programs only format months that `int` returned, and `CommandLine.MonthArgumentFormattable` proves those are within the limit.
- Ingestion.Lower and Decimal.ParseInt: ASCII only. Python's `str.lower` and `int` also fold Unicode letters and accept Unicode digits and spaces.
- Ingestion.ToDateTime: the bound check is on integer seconds. For a real it uses the second the value falls in, rather than the rounded nanosecond value pandas checks. So reals within a second of the bound may be judged differently.
- Ingestion.ToDateTime: the NaT strings are fixed to pandas' list (`nat_strings` plus the empty string). The NaT marker -2^63 is recognised only in an integer cell, not in a numeral string or a real.
- Ingestion.ToDateTime: numeric strings are accepted only in integer syntax (float syntax is rejected). A cell that is already a timestamp passes through; `read_csv` never produces one.
- Ingestion.ConvertTimestamps: two or more `timestamp` columns are reported by count, not by pandas' own exception.
- Files.FileSystem.Remove and Files.FileSystem.Rename: only a missing source fails. Permission, cross-device and other I/O errors are not modelled.
- Concurrent runs and locking are not modelled. The model does not prove atomic replacement, because the code is not atomic (see the section above).
- Logging, environment-variable configuration and the exit path itself (`sys.exit`) are not modelled. Failures are error values, and `ExitStatus` gives the status.
