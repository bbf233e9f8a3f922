# Plate-reader text parser, modelled in Dafny

This project models the core of a plate-reader data parser: the `PlateParser` and
`Plate` classes of `plateparser2.py`. A plate reader writes text dumps. Each dump is a
series of blocks separated by a line of 86 dashes. Each block has a test name, a date,
a time, and `well: value` pairs for wells `A00`–`H19`. The parser:

- splits every file on the delimiter;
- reads the four fields of every block with regular expressions;
- upserts one row per timestamp into a table (the test name and one cell per well);
- sorts the table by timestamp.

From the sorted table it answers two queries. `plate_from_testname` selects the rows of
one test. `plate_from_daterange` selects the rows from one timestamp to another, and the
range must carry a single test name. Each query returns a `Plate`: the selected rows,
re-indexed `0..n-1`, with an `elapsed` column (seconds since the first row), a
`datetime` column (the original timestamps), and the columns reordered to
`testname, elapsed, datetime`, then the wells.

Modules:

- `Wrappers`: `Option` and `Result`.
- `Text`: Python's `\s` set, ASCII digits, whitespace and digit runs, `int()` of a digit
  string.
- `Splitting`: `str.split` on a literal separator.
- `DateTimes`: `datetime` values:
  - the comparison order;
  - the calendar check of the `datetime(...)` constructor;
  - seconds since the proleptic Gregorian epoch;
  - the time-of-day difference of `calculate_time_delta`.
- `Matchers`: one hand-written scanner per regular expression. Each follows the `re`
  engine's backtracking order (`match`, `search`, `findall`).
- `Tables`: the parser's table as a value, and ingestion as functions on it. It holds the
  lemmas about what ingestion does.
- `Queries`: the final sort, `testnames`, and the two row selections.
- `Parsing`: the two classes.
  - `PlateParser` fills its table in place, cell by cell, with loops proved against the
    `Tables` functions. It then sorts the table.
  - `Plate` reshapes a selected frame. Its column reorder is the `remove`/`insert`
    loops of the source.

A missing test name is `None`. The source's `None` and pandas' empty cell are both
modelled as `None`, and `set(...)` counts it once.

Three behaviours of the code are worth stating outright:

- **Empty segments.** Empty segments from `split` are not skipped. An empty segment
  (an empty file, a leading or trailing delimiter, two delimiters in a row) has no
  date, and indexing the `None` date raises and ends the whole parse
  (`Tables.EmptySegmentAborts`).
- **Plate columns.** A plate keeps every column of the table, including wells that none
  of its rows has. The boolean mask keeps all columns, so the columns are not limited to
  the wells present in the slice.
- **Second-row test name.** `plate_from_daterange` takes the test name from the second
  row of the range. `Queries.SingleRowRangeFails` proves the consequence: a range of
  one row, or an empty range, fails with an index error.

## Model

| member | source | states |
|---|---|---|
| Text.DecimalRoundTrip | plateparser2.py:53 | `int()` of the decimal digits of any natural number gives the number back |
| Splitting.Split | plateparser2.py:75 | `str.split` gives at least one piece; `JoinSplit` proves joining the pieces with the delimiter gives the text back, and `SplitIsLeftmost` that the cuts are the leftmost non-overlapping occurrences |
| Splitting.Find | plateparser2.py:75 | the result is the leftmost occurrence of the delimiter at or after the start, or none |
| Splitting.JoinSplit | plateparser2.py:75 | joining the pieces of `split` with the delimiter gives the file text back |
| Splitting.SplitIsLeftmost | plateparser2.py:75 | every piece but the last is followed by the delimiter, and no piece contains it (leftmost, non-overlapping cuts) |
| Splitting.LeadingSeparatorGivesEmptyPiece | plateparser2.py:75 | a text starting with the delimiter gives an empty first piece |
| Splitting.NoSeparatorGivesOnePiece | plateparser2.py:75 | a text without the delimiter is one piece |
| DateTimes.BeforeOrder | plateparser2.py:27 | the datetime comparison used by the sort is irreflexive, total and transitive |
| DateTimes.Valid | plateparser2.py:80 | the checks `datetime(...)` makes: year 1-9999, month 1-12, a day of that month (Gregorian leap years), hour, minute and second in range; `Tables.ParseBlockSpec` proves failing them is `InvalidDateTime` |
| DateTimes.Elapsed | plateparser2.py:123 | the `timedelta` in seconds is positive exactly when `later` comes after `earlier`, and zero exactly when they are equal |
| DateTimes.SameDay | plateparser2.py:111 | on one calendar day, comparing datetimes is comparing their instants |
| DateTimes.EarlierDate | plateparser2.py:111 | a datetime on an earlier date is an earlier instant, whatever the times of day |
| DateTimes.BeforeIsEarlier | plateparser2.py:111 | for valid timestamps, the field-wise order is the order of their seconds, and equal seconds mean equal timestamps |
| DateTimes.TimeDelta | plateparser2.py:62-67 | the delta is in `[0, 86400)`, and adding it to the last time of day gives the current one, wrapping past midnight |
| Matchers.TimeAt | plateparser2.py:18 | a match at one position yields hour ≤ 29, minute and second ≤ 99 |
| Matchers.TimeAtMatches | plateparser2.py:18 | whenever `Time:`, a whitespace run and `[0-2]d:dd:dd` follow a position, the pattern matches there with those digits as fields |
| Matchers.TimeAtFits | plateparser2.py:18 | whenever the pattern matches at a position, `Time:`, the greedy whitespace run and the clock digits are found there |
| Matchers.MatchTime | plateparser2.py:37-45 | a found time has hour ≤ 29, minute and second ≤ 99 |
| Matchers.MatchTimeSpec | plateparser2.py:37-45 | `search` returns the match at the leftmost position where the pattern matches, and `None` exactly when it matches nowhere |
| Matchers.DateAt | plateparser2.py:19 | a match at one position yields day ≤ 39 and month ≤ 19 |
| Matchers.DateAtMatches | plateparser2.py:19 | whenever `Date:`, a whitespace run and `[0-3]d/[0-1]d/d+` follow a position, the pattern matches there; the year is the whole greedy digit run |
| Matchers.DateAtFits | plateparser2.py:19 | whenever the pattern matches at a position, `Date:`, the greedy whitespace run and the calendar digits are found there |
| Matchers.MatchDate | plateparser2.py:47-54 | a found date has day ≤ 39 and month ≤ 19 |
| Matchers.MatchDateSpec | plateparser2.py:47-54 | `search` returns the leftmost match, and `None` exactly when the pattern matches nowhere |
| Matchers.ValueEnd | plateparser2.py:17 | a value match ends after its start and is not followed by a digit (the greedy `\d` runs are exhausted) |
| Matchers.DecimalSpanOnly | plateparser2.py:17 | a span `[-+]?\d*\.\d+` has its point right after the sign and the whole digit run, and ends inside the digit run after the point |
| Matchers.DecimalSpanFrom | plateparser2.py:17 | conversely, every end inside the digit run after that point makes a decimal span |
| Matchers.ValueSpanUnique | plateparser2.py:17 | the value group, decimal alternative first and each greedy `\d` run longest, ends at one place at most |
| Matchers.ValueEndSpec | plateparser2.py:17 | `ValueEnd` returns exactly where the value group ends, the decimal alternative winning whenever it fits, and `None` exactly when no value starts there |
| Matchers.ValueEndIs | plateparser2.py:17 | wherever the value group ends, `ValueEnd` returns that end |
| Matchers.ValueEndIsValue | plateparser2.py:17 | the matched value is `[-+]?\d*\.\d+` or `\d+` (a sign only with the decimal form) |
| Matchers.WellAt | plateparser2.py:17 | a match is a well id `[A-H][0-1][0-9]`, a colon, the longest whitespace run, then the value, ending where `ValueEnd` says |
| Matchers.WellShapeParts | plateparser2.py:17 | wherever the pattern fits, its `\s+` is the longest whitespace run and its value ends where `ValueEnd` says |
| Matchers.WellAtMatches | plateparser2.py:17 | wherever the pattern fits at a position, the scanner returns that match: same well, same value text, same end |
| Matchers.WellAtSome | plateparser2.py:17 | the scanner matches wherever the id, the colon, some whitespace and a value follow one another |
| Matchers.WellAtFits | plateparser2.py:17 | wherever the scanner returns a match, the pattern fits there with that well, value and end; with `WellAtMatches`, the scanner matches exactly the pattern |
| Matchers.WellAtValue | plateparser2.py:17 | the value of a well match is a valid value as above |
| Matchers.WellsFrom | plateparser2.py:56-60 | every pair found from a position on (each match resumes the scan at its end) has a valid well id |
| Matchers.WellsFromEmpty | plateparser2.py:56-60 | `findall` from a position finds nothing exactly when the pattern matches at no position from there on |
| Matchers.WellsFromFirst | plateparser2.py:56-60 | otherwise the first pair is the match at the first position where the pattern matches, followed by the pairs found from that match's end: every non-overlapping match, in order |
| Matchers.WellsFromValues | plateparser2.py:56-60 | every pair found from a position on has a valid value |
| Matchers.MatchWells | plateparser2.py:56-60 | every returned pair has a valid well id; it is the scan from position 0, so `WellsFromEmpty` and `WellsFromFirst` describe exactly which pairs it returns |
| Matchers.TailBackSpec | plateparser2.py:20 | backtracking `\s+` from the longest run down finds a run length that leaves a non-newline character exactly when one exists |
| Matchers.TailAt | plateparser2.py:20 | the group of `\s+(.+)` is non-empty and has no newline |
| Matchers.TailAtSpec | plateparser2.py:20 | `\s+(.+)` matches exactly when some whitespace run leaves a non-newline character, and its group is the rest of that line |
| Matchers.NameAt | plateparser2.py:20 | the label sits at the position, and the name is non-empty with no newline |
| Matchers.FirstFound | plateparser2.py:37-54 | the first candidate that matched, or `None` exactly when none matched |
| Matchers.LastFound | plateparser2.py:20 | one of the candidates that matched, or `None` exactly when none matched |
| Matchers.LastFoundIs | plateparser2.py:20 | the last candidate that matched is the one returned (backtracking `^.*` tries label positions from the end of the line) |
| Matchers.MatchTestname | plateparser2.py:29-35 | a found name is non-empty and has no newline |
| Matchers.MatchTestnameLast | plateparser2.py:29-35 | the last label on the first line whose tail matches gives the name |
| Matchers.MatchTestnameSecondLine | plateparser2.py:29-35 | only when no label on the first line matches is the second line tried, and only when the block starts with `\n` |
| Matchers.MatchTestnameFound | plateparser2.py:29-35 | a name is found exactly when the label matches at an anchored position |
| Tables.ParseBlock | plateparser2.py:77-81 | a parsed record has a valid timestamp and valid well ids |
| Tables.ParseBlockSpec | plateparser2.py:77-81 | `MissingDateOrTime` exactly when the date or the time matcher fails; `InvalidDateTime` exactly when the fields do not make a valid `datetime`; otherwise the record holds that timestamp, the test-name match (`None` included) and the `findall` pairs |
| Tables.SetCell | plateparser2.py:85 | `.loc[d, w] = v`; `SetCellWellFormed` proves it keeps the table well formed, and the `ApplyReadings` lemmas what it writes |
| Tables.SetTestname | plateparser2.py:86 | `.loc[d, "testname"] = n`; `SetTestnameWellFormed` proves it keeps the table well formed, and `RecordRow` that the row then carries `n` |
| Tables.ApplyReadings | plateparser2.py:83-85 | a block's cell writes in `findall` order; its lemmas below prove the keys, rows, columns and cells it leaves and that it keeps the table well formed |
| Tables.IngestRecord | plateparser2.py:83-86 | one record's upsert; the `Record` lemmas below prove its row, the rows it leaves alone, its keys and well-formedness |
| Tables.IngestAll | plateparser2.py:76-86 | parse results in order, the first error ending the parse; `IngestAllOk`, `FirstErrorEndsParse`, `IngestAllWellFormed` and `CollectThenIngest` prove when it succeeds, which error it returns, and the table it builds |
| Tables.IngestBlocks | plateparser2.py:76-86 | the blocks of one file; `IngestBlocksOk`, `FirstFailureEndsParse` and `ParseThenIngest` prove the same of blocks |
| Tables.IngestFiles | plateparser2.py:72-86 | the files in order; `IngestFilesIsIngestBlocks`, `IngestFilesAsRecords` and `EmptySegmentAborts` prove it reads every block in file order with the last write winning, and fails on an empty segment |
| Tables.Ingest | plateparser2.py:69-86 | `NoInputPaths` for `None` or no paths, otherwise `IngestFiles`; `Parsing.PlateParser.ParseFiles` is proved against it |
| Tables.SetCellWellFormed | plateparser2.py:85 | setting one cell keeps the table well formed: each timestamp is one row, the columns are `testname` and distinct well ids |
| Tables.SetTestnameWellFormed | plateparser2.py:86 | setting the test name keeps the table well formed |
| Tables.ApplyReadingsKeys | plateparser2.py:83-85 | the cell writes add the block's timestamp to the rows, appended to the index when new |
| Tables.ApplyReadingsWellFormed | plateparser2.py:83-85 | a block's cell writes keep the table well formed |
| Tables.ApplyReadingsRows | plateparser2.py:83-85 | the cell writes leave every other row unchanged and keep the row's test name (`None` on a new row) |
| Tables.ApplyReadingsColumns | plateparser2.py:83-85 | the columns grow by exactly the wells the block names, old columns first and in place |
| Tables.ApplyReadingsCells | plateparser2.py:83-85 | in the row, the last pair for each named well wins; a well the block does not name keeps its cell, or stays absent |
| Tables.RecordRow | plateparser2.py:83-86 | upserting a record: its row exists, carries its test name (`None` included), the last pair per well wins, and unnamed wells keep their cells |
| Tables.RecordOthers | plateparser2.py:83-86 | upserting a record leaves every other row unchanged |
| Tables.RecordKeys | plateparser2.py:83-86 | upserting a record adds its timestamp to the rows, at the end of the index when it is new |
| Tables.RecordWellFormed | plateparser2.py:83-86 | upserting a parsed record keeps the table well formed and only appends columns |
| Tables.RecordEffect | plateparser2.py:76-86 | upserting one parsed record: all of the above together |
| Tables.IngestAllWellFormed | plateparser2.py:76-86 | stopping at the first error and otherwise upserting sound parse results keeps the table well formed |
| Tables.IngestBlocksWellFormed | plateparser2.py:76-86 | a successful ingestion of a file's blocks keeps the table well formed |
| Tables.IngestFilesWellFormed | plateparser2.py:72-86 | a successful ingestion of all files keeps the table well formed |
| Tables.IngestAllOk | plateparser2.py:76-80 | a sequence of parse results is ingested exactly when none is an error |
| Tables.IngestBlocksOk | plateparser2.py:76-80 | a file's blocks are ingested exactly when every block parses (both directions) |
| Tables.FirstErrorEndsParse | plateparser2.py:76-80 | the first error among the parse results is the result of the whole ingestion |
| Tables.FirstFailureEndsParse | plateparser2.py:76-80 | the first block that does not parse ends the whole parse with its error |
| Tables.EmptyBlockFails | plateparser2.py:80 | an empty block fails with the missing date or time error |
| Tables.Collect | plateparser2.py:76-81 | collecting parse results gives one record per result, or an error |
| Tables.CollectRecord | plateparser2.py:76-81 | record `k` of a successful collection is parse result `k` |
| Tables.ParseAll | plateparser2.py:76-81 | the records of all blocks, one per block, each with a valid timestamp and valid well ids |
| Tables.ParseAllRecord | plateparser2.py:77-81 | record `k` of a successful parse is the parse of block `k` |
| Tables.CollectThenIngest | plateparser2.py:76-86 | ingesting parse results one by one, stopping at the first error, is collecting them first, then upserting all records |
| Tables.ParseThenIngest | plateparser2.py:76-86 | reading block by block and stopping at the first error equals parsing all blocks, then upserting all records |
| Tables.IngestRecordsKeys | plateparser2.py:83-86 | upserting records keeps the old rows' order; the rows are the old ones plus one per distinct timestamp |
| Tables.IngestRecordsWellFormed | plateparser2.py:83-86 | upserting parsed records keeps the table well formed |
| Tables.UnstampedRowKept | plateparser2.py:83-86 | a row whose timestamp no record carries is unchanged |
| Tables.LastRecordWins | plateparser2.py:83-86 | the last record at a timestamp decides that row's test name and, for each well it names, the cell; later records at other timestamps do not touch it |
| Tables.Blocks | plateparser2.py:72-76 | every piece of every file's split is among the blocks read |
| Tables.IngestAllAppend | plateparser2.py:76-86 | ingesting results `a + b` is ingesting `a`, then `b` on the result, or `a`'s error |
| Tables.IngestBlocksAppend | plateparser2.py:76-86 | ingesting blocks `a + b` is ingesting `a`, then `b` on the result, or `a`'s error |
| Tables.IngestFilesAppend | plateparser2.py:72-86 | reading files `a + b` is reading `a`, then `b` on the result, or `a`'s error |
| Tables.IngestFilesIsIngestBlocks | plateparser2.py:72-86 | reading the files one by one is reading all their blocks in file order, then block order |
| Tables.IngestFilesAsRecords | plateparser2.py:72-86 | reading the files equals parsing all their blocks, then upserting the records, so the last write wins across files too |
| Tables.EmptySegmentAborts | plateparser2.py:75-80 | an empty split segment in any file makes the whole parse fail; nothing is skipped |
| Tables.LeadingDelimiterAborts | plateparser2.py:75-80 | a file that starts with the delimiter makes the parse fail |
| Tables.EmptyFileAborts | plateparser2.py:74-80 | an empty file makes the parse fail |
| Tables.BlocksErrorSticks | plateparser2.py:76-80 | an error among the first `j` blocks is the error of the whole file |
| Tables.FilesErrorSticks | plateparser2.py:72-80 | an error among the first `i` files is the error of the whole parse |
| Tables.IngestBlocksNext | plateparser2.py:76 | ingesting `j + 1` blocks continues ingesting `j` with block `j` |
| Tables.IngestFilesNext | plateparser2.py:72-75 | reading `i + 1` files continues reading `i` with the blocks of file `i` |
| Queries.Insert | plateparser2.py:27 | inserting a timestamp grows the index's multiset by exactly that timestamp |
| Queries.InsertAscending | plateparser2.py:27 | inserting into an ascending index without that timestamp keeps it ascending |
| Queries.SortDates | plateparser2.py:27 | the sorted index is a permutation of the index, and ascending when the index has no duplicates |
| Queries.SortTable | plateparser2.py:27 | `sort_index()`; `SortTableWellFormed` proves the index becomes ascending and a permutation of the old one, rows and columns kept |
| Queries.SortTableWellFormed | plateparser2.py:25-27 | after the sort, the index is strictly ascending (no duplicate timestamp) and a permutation of the old one; rows and columns are unchanged |
| Queries.Testnames | plateparser2.py:89-90 | the names are exactly those some row carries, each once |
| Queries.OneRowOneName | plateparser2.py:89-90 | rows that all sit at one timestamp carry at most one test name |
| Queries.Named | plateparser2.py:98 | the kept timestamps are exactly the index entries whose row has the name, in index order (ascending and distinct kept) |
| Queries.Within | plateparser2.py:111 | the kept timestamps are exactly the index entries with `start <= d <= end`, in index order (ascending and distinct kept) |
| Queries.WithinReversed | plateparser2.py:111 | on an ascending index, a range whose end comes before its start is empty |
| Queries.WithinIsSlice | plateparser2.py:106-111 | on an ascending index, the range between two index entries is the slice between them, and empty when the end comes first |
| Queries.Restrict | plateparser2.py:98 | the frame has exactly the kept rows, unchanged, in the given order, with all columns |
| Queries.RestrictWellFormed | plateparser2.py:98 | a frame cut from a well-formed table is well formed |
| Queries.SelectByName | plateparser2.py:95-99 | `UnknownTestname` exactly when no row has the name; otherwise a non-empty well-formed frame of exactly the rows with that name, unchanged, all columns, ascending when the table is |
| Queries.SelectRange | plateparser2.py:101-115 | `plate_from_daterange` up to the plate; `SelectRangeErrors` proves which error each failing check gives, `SelectRangeRows` which rows a success holds |
| Queries.SelectRangeErrors | plateparser2.py:101-115 | the checks in order, each with its error: start not in the index, end not in the index, more than one name, fewer than two rows |
| Queries.SelectRangeRows | plateparser2.py:111-115 | on success, the frame is exactly the rows with `start <= d <= end`, unchanged, at least two, all carrying the plate's test name |
| Queries.SingleRowRangeFails | plateparser2.py:115 | on a sorted table, a range whose start is not before its end fails with an index error, because the name comes from the second row |
| Parsing.ElapsedOf | plateparser2.py:123 | one elapsed time per row, the first 0 |
| Parsing.ElapsedIncreases | plateparser2.py:123 | on an ascending index, elapsed times are non-negative and strictly increasing, and each is the distance from the first timestamp |
| Parsing.Without | plateparser2.py:131-132 | what is left after the removals is exactly the columns not moved |
| Parsing.RemoveAfterWithout | plateparser2.py:131-132 | one more `remove` on distinct columns drops exactly that column |
| Parsing.MoveToFront | plateparser2.py:129-134 | the reordered columns are `testname, elapsed, datetime`, then every other column in its original order |
| Parsing.PlateColumns | plateparser2.py:126-135 | a plate's columns are `testname, elapsed, datetime`, then the frame's wells in order: a permutation of the frame's columns plus the two new ones |
| Parsing.WellIdsAreNotFront | plateparser2.py:126-132 | the columns after adding `elapsed` and `datetime` are distinct and hold all three moved names, so every `remove` succeeds |
| Parsing.Plate.constructor | plateparser2.py:119-135 | the same rows in the same order: name; elapsed from the first row; original timestamp; cells; index `0..n-1`; reordered columns |
| Parsing.PlateParser.constructor | plateparser2.py:25 | the empty frame with the single column `testname` |
| Parsing.PlateParser.SetCell | plateparser2.py:85 | the frame becomes `SetCell` of the old one and stays well formed |
| Parsing.PlateParser.SetTestname | plateparser2.py:86 | the frame becomes `SetTestname` of the old one and stays well formed |
| Parsing.PlateParser.SetCells | plateparser2.py:83-85 | the loop of cell writes leaves the frame equal to applying the block's pairs in order |
| Parsing.PlateParser.ParseBlockInto | plateparser2.py:77-86 | one block: the error of its parse, or the frame after upserting its record |
| Parsing.PlateParser.ParseBlocksInto | plateparser2.py:76-86 | the loop over a file's blocks ends with the first error, or with the frame the blocks' ingestion gives |
| Parsing.PlateParser.ParseFiles | plateparser2.py:69-86 | `NoInputPaths` when paths are `None` or empty, before any reading; otherwise the first error, or the frame the files' ingestion gives |
| Parsing.PlateParser.SortIndex | plateparser2.py:27 | the frame becomes the sorted one, with an ascending index |
| Parsing.PlateParser.Load | plateparser2.py:22-27 | a parser exists exactly when ingestion into the empty frame succeeds; its frame is that result sorted, ascending; otherwise the ingestion error |
| Parsing.PlateParser.Testnames | plateparser2.py:89-90 | exactly the names some row carries |
| Parsing.PlateParser.Dates | plateparser2.py:92-93 | the index: every row exactly once |
| Parsing.PlateParser.PlateFromTestname | plateparser2.py:95-99 | `UnknownTestname` exactly when no row has the name; otherwise a new plate reshaping exactly the rows with that name |
| Parsing.PlateParser.PlateFromDateRange | plateparser2.py:101-115 | the range errors of `SelectRange`; otherwise a new plate reshaping the rows from `start` to `end` (at least two), named after the second |

## Left out

- File reading (`open`/`read`, plateparser2.py:73-74): `ParseFiles` and `Load` take the
  file texts in place of the paths.
- pandas is not modelled. The frame is an index sequence, a map from timestamp to row,
  and a column sequence. `sort_index` is an insertion sort. The boolean masks are
  filters over the index. pandas' nanosecond timestamp range (years 1677–2262) is not
  modelled: the model accepts every year `datetime` accepts.
- `\d` in the patterns also matches non-ASCII decimal digits in Python. The model
  accepts ASCII digits only.
- `plate_from_testname(None)`: the name is a `string`. Looking up a missing name
  depends on pandas' `None`/NaN equality, which is not modelled.
- `calculate_time_delta` reads `self.current_timepoint`, which is never assigned, and
  `last_timepoint` is the integer 0 (plateparser2.py:23, 63). It is modelled as
  `DateTimes.TimeDelta` on two timestamps. The fields `last_timepoint` and
  `time_elapsed` are never read elsewhere, so they are not modelled.
- The `isinstance` checks (plateparser2.py:102-105) are covered by Dafny's types.
- `__repr__`, `__str__`, `date_range`, `time_range` and `to_csv`
  (plateparser2.py:137-152) are display and CSV formatting by pandas and `datetime`.
  They are not modelled, and neither is the `__main__` demo (plateparser2.py:154-160).
- parsertui.py is terminal input and output, and is not part of this model.
- The pandas option at plateparser2.py:10 only silences a warning.
- `Parsing.PlateParser.ParseFiles`: on an error the contract says only that the frame
  stays well formed, not which blocks were already written, because the raising
  constructor discards the half-filled parser.
- `Parsing.PlateParser.ParseBlocksInto`: on an error, likewise only well-formedness.
- `Parsing.PlateParser.ParseBlockInto`: on an error, likewise only well-formedness.
- `Parsing.Plate.constructor` requires a well-formed frame with at least one row. The
  empty frame (an `IndexError` at plateparser2.py:123) is unreachable: both queries
  build a plate from at least one row.
- `Parsing.MoveToFront` requires the three moved names to be present and the columns
  distinct. `list.remove` raises otherwise, and `Parsing.WellIdsAreNotFront` shows that
  the plate's columns always meet this.
- Elapsed times are whole seconds. Timestamps carry no sub-second part, so nothing is
  lost.
