# Heart-rate readings: grouping and per-bucket statistics

This project models the processing core of `process_data.py`, a tool that turns
an exported list of heart-rate readings (`timestamp, value` rows) into summary
tables. The core has four steps:

- **Reading.** Each row becomes a `DataPoint`. Its timestamp is parsed with
  `%Y-%m-%d %H:%M:%S` and its value with `float`.
- **Keys.** Each reading gets two keys:
  - a *partition key* that chooses the output file: the year for `yearly`,
    `<year>_<month>`, with an unpadded month, for the literal mode `montly`,
    and `default_key` for every other mode (so `monthly` too);
  - a *breakdown key* that chooses the row within the file: the day for
    `daily`, the hour for `hourly`, the exact second for any other mode.
- **Grouping.** `get_breakdown_datapoints` groups the timestamped readings into
  a two-level dict, partition key to breakdown key to readings. Both levels
  keep the order in which keys are first seen.
- **Statistics.** `compute_output_dataset_from_breakdown_datapoints` truncates
  each value of a bucket to an integer. It then writes one row per bucket:
  the key, the mean, the maximum and the minimum. Each partition's rows are
  sorted by key.

The modules follow these stages:

| module | file | what it holds |
|---|---|---|
| `Wrappers` | `wrappers.dfy` | `Option` and `Result` |
| `Text` | `text.dfy` | Python's string order, zero-padded decimal fields, `str.strip` |
| `DateTimes` | `datetimes.dfy` | valid date-times, the fixed format and its parser, chronological order |
| `Keys` | `keys.dfy` | `get_partition_key`, `get_breakdown_key` |
| `DataPoints` | `datapoints.dfy` | `DataPoint.__init__`, the exceptions the core can raise |
| `Dicts` | `dicts.dfy` | insertion-ordered dicts with string keys |
| `Grouping` | `grouping.dfy` | `get_breakdown_datapoints` as a method, and functions that state over the input what each partition and bucket holds |
| `Aggregation` | `aggregation.dfy` | the statistics of a bucket, the sort, the dataset computation as methods, and the pipeline of lines 87-93 |

The functions that state what the grouping must hold are defined over the
input readings:

- `PartitionOrder` gives the partition keys in first-seen order.
- `BreakdownOrder` gives the breakdown keys of one partition in first-seen order.
- `Bucket` gives the readings that carry two given keys, in input order.

The grouping method is proved to build exactly these. The dataset method is
proved equal to `DatasetOf`, a function that stands for lines 59-75. The
lemmas about `DatasetOf` give its success condition, its exceptions and the
shape of its rows.

The program's exceptions are modelled as a `Result`:

- Reading a value that was never set raises `AttributeError`.
- Dividing by the length of an empty bucket raises `ZeroDivisionError`.

On a grouping made by `get_breakdown_datapoints`, the second cannot happen,
since no bucket is empty. The first happens exactly when some timestamped
reading has no value.

Three places where the model departs from the code as written, or from what
the code evidently intends:

- **`"montly"`.** Line 27 compares the mode with `"montly"`. The command line
  offers `monthly` (line 107), which therefore falls through to
  `default_key`. The model keeps this as written.
- **Unparsable timestamps.** The intended behaviour is that a reading whose
  timestamp cannot be parsed is left out without stopping the program. The code
  does not do that, as the Findings section shows. The main model skips such
  readings, which is the intended behaviour.
- **Missing attributes.** A failed parse at line 11 leaves the attribute `dt`
  unset rather than set to `None`, and a row with one field leaves `hr`
  unset. `DataPoint` represents an unset attribute as `None`.

## Model

| member | source | states |
|---|---|---|
| `DataPoints.NewDataPoint` | process_data.py:7-15 | the reading has a timestamp exactly when the row has a first field whose stripped text parses, and that timestamp formats back to the stripped text; it has a value exactly when the row has a second field, and that value is `float` of the second field |
| `DataPoints.UnparsableTimestamp` | process_data.py:10-13 | a first field that is not a timestamp leaves the reading without one but keeps its value |
| `DateTimes.Format` | process_data.py:21 | `%Y-%m-%d %H:%M:%S` is always 19 characters and opens with `%Y-%m-%d` |
| `DateTimes.Parse` | process_data.py:11 | only a 19-character string can parse |
| `DateTimes.ParseFormat` | process_data.py:11 | parsing a formatted date-time gives it back |
| `DateTimes.FormatParse` | process_data.py:11 | formatting a parsed string gives the string back |
| `DateTimes.FormatOrder` | process_data.py:37 | string order of formatted date-times is chronological order, and the format is injective |
| `DateTimes.FormatDateOrder` | process_data.py:34 | string order of `%Y-%m-%d` is the order of the dates |
| `Text.Less` | process_data.py:74 | Python's `<` on `str`, compared code point by code point with a proper prefix first; it has no contract of its own, and `LessIrreflexive`, `LessTransitive` and `LessTotal` make it a strict total order |
| `Text.LessIrreflexive` | process_data.py:74 | no string sorts before itself |
| `Text.LessTransitive` | process_data.py:74 | Python's string order is transitive |
| `Text.LessTotal` | process_data.py:74 | any two distinct strings are ordered one way or the other |
| `Text.StripStart` | process_data.py:11 | the result is a suffix of the input, everything removed is whitespace, and a non-empty result does not start with whitespace |
| `Text.StripEnd` | process_data.py:11 | the result is a prefix of the input, everything removed is whitespace, and a non-empty result does not end with whitespace |
| `Text.Strip` | process_data.py:11 | `row[0].strip()` is `StripEnd` of `StripStart`, so it removes exactly the whitespace at both ends; its own contract states that the result is no longer than the input and that a non-empty result neither starts nor ends with whitespace |
| `Text.DecimalString` | process_data.py:26 | `str(dt.year)` is a non-empty run of decimal digits with no leading zero; `DecimalStringOfFourDigits` shows that for a four-digit year it is the zero-padded `%Y` field |
| `Text.DecimalStringOfFourDigits` | process_data.py:26 | for a year from 1000 to 9999, `str` of the year equals its `%Y` field |
| `Keys.PartitionKey` | process_data.py:24-29 | `get_partition_key`; it has no contract of its own, and `PartitionKeyCases` states each of its three branches |
| `Keys.BreakdownKey` | process_data.py:32-37 | `get_breakdown_key`; it has no contract of its own, and `BreakdownKeyShape`, `BreakdownKeyOfTruncation` and `BreakdownKeyOrder` state its shape and order |
| `Keys.PartitionKeyCases` | process_data.py:24-29 | `yearly` gives the four-digit year; the literal `montly` gives that year, `_` and the month without zero padding, taken from the formatted timestamp; every mode other than `yearly` and `montly` (so `monthly` too) gives `default_key` |
| `Keys.BreakdownKeyShape` | process_data.py:32-37 | `daily` gives the 10-character date; `hourly` gives 19 characters that agree with the exact key on the date and the hour and end in `:00:00`; any other mode gives the exact timestamp |
| `Keys.Truncate` | process_data.py:32-37 | the instant a key stands for has the reading's date and is not after the reading |
| `Keys.BreakdownKeyOfTruncation` | process_data.py:32-37 | a breakdown key is the formatted truncated instant, and hourly and exact keys parse back to it |
| `Keys.BreakdownKeyOrder` | process_data.py:32-37 | for one mode, key order is chronological order of the truncated instants, and equal keys mean equal instants |
| `Dicts.Put` | process_data.py:49-52 | storing under a new key appends it to the key order; storing under an old key keeps its place |
| `Dicts.PutTwice` | process_data.py:50-52 | storing twice under one key is storing the second value |
| `Grouping.AddDatapoint` | process_data.py:46-52 | the partition and then the bucket are created when missing, each going last, and the reading is appended to its bucket; nothing else changes |
| `Grouping.GetBreakdownDatapoints` | process_data.py:40-53 | the partitions are those of the timestamped readings in first-seen order; so are the buckets of each partition; each bucket holds exactly the readings with its keys in input order; no partition or bucket is empty; the grouping holds the timestamped readings and only them, as many as there are |
| `Grouping.AppendPreservesContents` | process_data.py:52 | one append adds exactly that reading to the grouping's contents |
| `Grouping.BucketMembers` | process_data.py:46-52 | a reading is in a bucket exactly when it is an input reading carrying both keys |
| `Grouping.BreakdownOrderMembers` | process_data.py:50-51 | a breakdown key is listed exactly when its bucket is non-empty |
| `Grouping.PartitionOrderMembers` | process_data.py:48-49 | a partition key is listed exactly when its partition has a breakdown key |
| `Grouping.TimestampedMembers` | process_data.py:45 | the kept readings are exactly the input readings with a timestamp |
| `Grouping.TimestampGuardAsWritten` | process_data.py:45 | as the code runs, the guard raises exactly when some reading has no timestamp attribute |
| `Grouping.UnparsableRowAbortsAsWritten` | process_data.py:10-13 | one unparsable row makes the code as written raise, where the intended grouping leaves it out |
| `Aggregation.Trunc` | process_data.py:63 | `int` of a float truncates toward zero |
| `Aggregation.TruncIsNotFloor` | process_data.py:63 | on negative values truncation differs from the floor |
| `Aggregation.Max` | process_data.py:65 | `max` is an element no smaller than any other |
| `Aggregation.Min` | process_data.py:66 | `min` is an element no larger than any other |
| `Aggregation.Sum` | process_data.py:64 | `sum(hrs)`; it has no contract of its own, and `SumBounds` bounds it |
| `Aggregation.SumBounds` | process_data.py:64 | the sum lies between the length times the minimum and the length times the maximum |
| `Aggregation.Hrs` | process_data.py:63 | one value per reading, in order, each the truncation of that reading's value |
| `Aggregation.Mean` | process_data.py:64 | the exact quotient: `len` copies of it add up to the sum |
| `Aggregation.MeanBetween` | process_data.py:64-66 | the mean of a non-empty list lies between its minimum and its maximum |
| `Aggregation.RowOf` | process_data.py:63-72 | the row carries its key; `avg_hr` is `Mean` of the sum and the number of values, so that many copies of it add up to the sum; `min_hr <= avg_hr <= max_hr`; min and max are values of the bucket and bound all of them |
| `Aggregation.BucketRow` | process_data.py:63-72 | a row is made exactly when the bucket is non-empty and all its readings have a value; otherwise the exception is `ZeroDivisionError` for an empty bucket and `AttributeError` for a missing value; the row made is `RowOf` of the key and the truncated values |
| `Aggregation.SingleReading` | process_data.py:63-66 | a one-reading bucket has mean, maximum and minimum all equal to the truncated value |
| `Aggregation.HourlyScenario` | process_data.py:63-72 | values 5.7 and 7.2 give mean 6.0, maximum 7, minimum 5; a lone 3.9 gives 3.0, 3, 3 |
| `Aggregation.BucketStats` | process_data.py:63-72 | computes `BucketRow` by building the truncated values in a loop |
| `Aggregation.SortRows` | process_data.py:74 | sorting keeps the same rows |
| `Aggregation.SortRowsSorted` | process_data.py:74 | with distinct keys the sorted rows are strictly increasing by key |
| `Aggregation.SequenceOutcome` | process_data.py:62-73 | a loop of steps that may raise succeeds exactly when every step does, and then lists their values in order; otherwise the first exception wins |
| `Aggregation.CollectSequence` | process_data.py:60-74 | filling a dict by such steps fails exactly when the same loop fails, with the same exception |
| `Aggregation.CollectEntry` | process_data.py:74 | a filled dict stores each step's value under its key |
| `Aggregation.ComputePartition` | process_data.py:61-74 | computes one partition's sorted rows, or its first exception |
| `Aggregation.ComputeOutputDataset` | process_data.py:56-75 | computes `DatasetOf` partition by partition, ending at the first exception |
| `Aggregation.PartitionOutput` | process_data.py:61-74 | one partition's sorted rows or its first exception; it has no contract of its own, and `PartitionOutcome` and `PartitionRows` state its outcome and rows |
| `Aggregation.DatasetOf` | process_data.py:59-75 | the whole output dataset or the first exception; it has no contract of its own, and `DatasetOutcome` states its outcome, keys and partitions |
| `Aggregation.PartitionOutcome` | process_data.py:61-74 | a partition's rows are made exactly when each bucket can give a row; otherwise its exception is a bucket's |
| `Aggregation.PartitionRows` | process_data.py:61-74 | a partition's rows are strictly increasing by key, one per bucket, each the row of the bucket its key names, with `dt` equal to the key |
| `Aggregation.DatasetOutcome` | process_data.py:59-75 | the dataset is made exactly when every bucket can give a row; it then has the partitions of the grouping in the same order, each with its rows; otherwise its exception is a bucket's |
| `Aggregation.GroupedDatasetOutcome` | process_data.py:45-66 | on a grouping of the readings, the dataset is made exactly when every timestamped reading has a value, and the only exception is the `AttributeError` for `hr`, never a division by zero |
| `Aggregation.GroupedDatasetRows` | process_data.py:40-74 | on a grouping of the readings, each output partition's rows are strictly increasing, one per breakdown key of that partition, each the row of exactly the readings with both keys |
| `Aggregation.Process` | process_data.py:87-93 | grouping then computing succeeds exactly when every timestamped reading has a value; the only exception is `AttributeError` for `hr`; the output is a well-formed dict whose keys are the input's partition keys in first-seen order, and each partition has one row per breakdown key, strictly increasing by key, each computed from exactly the readings with both keys |

## Left out

- The reading of the CSV file, the skipped header row, the output paths and
  the `DictWriter` output of `main` (lines 78-86 and 94-99) are file I/O.
  Lines 87-93, which connect the two core functions, are modelled as
  `Aggregation.Process`.
- The `argparse` setup (lines 102-118) is command-line plumbing. It would
  restrict the modes to `yearly`/`monthly` and `daily`/`hourly`/`none`; the
  model accepts any mode string.
- `float(row[1])` (line 15) is a library conversion. The model takes it as the
  parameter `toFloat`, and the `ValueError` it can raise is not modelled.
- `DateTimes.Parse`: it accepts only the zero-padded 19-character form with
  a year from 1000 to 9999, and checks the calendar as `strptime` does.
  `strptime` also accepts these forms:
  - single-digit fields, such as `2024-1-1 9:5:7`;
  - a run of whitespace where the format has a space, such as
    `2024-01-01  10:00:00`;
  - a space-padded day, such as `2024-01- 1 10:00:00`;
  - years below 1000 written with four digits, such as `0999-01-01 10:00:00`;
  - decimal digits outside ASCII, such as the fullwidth
    `２０２４-01-01 10:00:00`, since `strptime` matches `\d`, while
    `Text.IsDigit` accepts only `0` to `9`.

  The program groups rows in these forms. The model gives them no timestamp,
  so it skips them.
- `DataPoints.NewDataPoint`: because it uses `DateTimes.Parse`, it gives no
  timestamp to rows in the lenient forms listed above.
- `DataPoints.NewDataPoint`: the diagnostic printed on a failed parse (line
  13) has no effect on the model.
- Years outside 1000..9999 are not modelled. `%Y` writes them in a
  platform-dependent width. As noted for `DateTimes.Parse`, the program keeps
  such a reading and the model drops it.
- `Aggregation.RowOf`: the mean is an exact quotient of reals. IEEE rounding
  of `sum(hrs) / len(datapoints)` is not modelled.
- `Aggregation.Trunc`: a value beyond the range of a float, or a NaN, is not
  modelled.
- `__str__` and `to_dict` (lines 17-21) only display a reading. The format
  `to_dict` uses is the one `DateTimes.Format` models.
- `Aggregation.SortRows` compares keys only. Python's `sorted` would go on to
  compare the row dicts for equal keys and raise `TypeError`. This cannot
  happen, because the keys of one partition are distinct.

## Findings

| source | as written | input that shows it | evidently intended | confidence | as-written member | corrected member |
|---|---|---|---|---|---|---|
| process_data.py:10-13, process_data.py:45 | a row whose timestamp fails to parse leaves `dt` unset, and the guard `datapoint.dt is not None` then raises `AttributeError`, which ends the program | the rows `["not-a-date", "5"]` | the reading is skipped and the other readings are grouped | not executed | `Grouping.UnparsableRowAbortsAsWritten` | `Grouping.GetBreakdownDatapoints` |
