# Watermark filtering of scraped OpenStates documents, in Dafny

This project models the two pieces of the `openstates_scraped_data_formatter`
pipeline that decide which scraped documents are processed again. It is
written in Dafny 4.11 and its properties are proved by the Dafny verifier.

- **The timestamp tracker** (`utils/timestamp_tracker.py`) keeps a
  *watermark* per category (`bills`, `vote_events`, `events`). A watermark is
  the latest document timestamp seen for that category. The tracker does four
  things:
  - normalises timestamps with `to_dt_obj`;
  - moves a watermark forward with `update_latest_timestamp`;
  - decides with `is_newer_than_latest` whether a document is newer than its
    category's watermark, letting it through when in doubt;
  - serialises the watermark map to a JSON file of ISO strings and reads it
    back, falling back to 1900-01-01 defaults.
- **The batch loader** (`utils/io_utils.py`, `load_json_files`) walks a
  folder listing. It keeps `.json` files and picks each file's category from
  its name prefix. It drops documents that are not newer than their
  category's watermark. It collects the accepted `(filename, document)` pairs
  in listing order and records undecodable files as `invalid_json` errors.
  Accepted `event_*` files are archived, and their `missing_session` error
  files are removed.

## Layout

| file | module | contents |
|---|---|---|
| `wrappers.dfy` | `Wrappers` | `Option`, `Result` |
| `json_value.dfy` | `JsonValue` | decoded JSON values; Python truthiness, `dict.get`, `or` |
| `dates.dfy` | `Dates` | `DateTime`, calendar validity, the `Timestamp` subset type, chronological order |
| `layouts.dfy` | `Layouts` | the ISO (`%Y-%m-%dT%H:%M:%S`) and compact (`%Y%m%dT%H%M%S`) layouts: formatting, strict parsing, round trips |
| `timestamp_tracker.dfy` | `TimestampTracker` | `to_dt_obj`, `update_latest_timestamp`, `is_newer_than_latest`, and the write and read steps of the watermark file |
| `io_utils.dfy` | `IoUtils` | `load_json_files` as a pure function over the folder listing |

Modelling choices:

- **The global table is a parameter.** The module-global table
  `latest_timestamps` is passed in and returned explicitly as a `Table`. The
  dynamically typed values in it are the `Value` datatype: a datetime, a
  string, `None`, or any other JSON value.
- **The loader is a function over the listing.** The folder listing and the
  outcome of `json.load` for each file are the input sequence `seq<Entry>`.
  Each entry's content is a decoded document or undecodable text.
- **The loader's effects are outputs.** Archived files, error records and the
  `missing_session` folder are fields of the resulting `Batch`. The
  `missing_session` folder is a set of file names given as input and updated
  in the result.
- **Escaping exceptions are values.** An exception that escapes
  `load_json_files` is the `Err` branch of a `Result`. The `Err` carries a
  `Failure`: the exception, and the `Batch` of effects already carried out
  before it. Those are the error records written, the files archived and the
  `missing_session` files removed for the files listed before the one that
  raised. Only the returned list is lost.
- **Parsers are strict.** They read fixed-width digit fields only. Python's
  `strptime` is more lenient, so the set of strings the model parses is a
  subset of what the real parsers accept, and the results agree on that
  subset.

Three behaviours of the code are easy to miss, and the model follows the
code in each:

- **No default for a single category.** One might expect a missing category
  to get its own 1900-01-01 default when the watermark file is read. The
  code does not do this. `read_all_latest_timestamps` returns only the
  file's truthy entries. Entries that do not parse stay in the map as `None`.
  When a category is missing altogether, `load_json_files` raises
  `KeyError` (`TimestampTracker.PartialFileIsNotCompleted`,
  `IoUtils.PartialWatermarkFileRaises`).
- **Some bad files stop the batch.** Only `json.JSONDecodeError` is caught,
  so not every bad file is merely recorded and skipped. In the code as written, every decoded categorised `.json` file makes
  the three-argument newness call raise `TypeError` out of the loop (see
  Findings, `IoUtils.LoadJsonFilesAsWritten`). With the two-argument call the
  code evidently intends, a categorised `.json` file whose document is not a
  JSON object still raises `AttributeError` out of the loop
  (`IoUtils.LoadJsonFiles`, `IoUtils.CrashKeepsEarlierArchive`).
- **An untouched watermark is written back as 1900-01-01.** The table that
  `write_latest_timestamp_file` persists is the global `latest_timestamps`,
  seeded with `19000101T000000` for every category. Only
  `update_latest_timestamp` writes to it, and only when a candidate is
  present and either the `existing_dt` its caller passes is absent or the
  candidate is later than it. `read_all_latest_timestamps`
  returns a new dictionary and never writes into the table. So a category
  that no update moves during a run is written as `1900-01-01T00:00:00`,
  whatever the previous file held for it, and the next run starts that
  category from 1900-01-01 again (`TimestampTracker.UpdateAllTable`,
  `TimestampTracker.UntouchedCategoryWrittenAsEpoch`). The callers that
  drive a run are not part of this model, so whether they re-seed the table
  cannot be seen here.

## Model

| member | source | states |
|---|---|---|
| JsonValue.Or | openstates_scraped_data_formatter/utils/timestamp_tracker.py:58 | Python `a or b` is truthy iff either operand is, and is `a` when `a` is truthy, else `b` |
| Dates.Max | openstates_scraped_data_formatter/utils/timestamp_tracker.py:48 | the larger of two datetimes is one of them and not before either |
| Layouts.ParseIso | openstates_scraped_data_formatter/utils/timestamp_tracker.py:36 | a string the ISO parser accepts is exactly the ISO rendering of the datetime it yields |
| Layouts.ParseCompact | openstates_scraped_data_formatter/utils/timestamp_tracker.py:38 | a string the compact parser accepts is exactly the compact rendering of the datetime it yields |
| Layouts.FormatIsoReadsBack | openstates_scraped_data_formatter/utils/timestamp_tracker.py:89 | the `%Y-%m-%dT%H:%M:%S` rendering is 19 characters with `-`, `T`, `:` in place and zero-padded digit fields, and each field reads back as the datetime's own year, month, day, hour, minute and second |
| Layouts.FormatCompactReadsBack | openstates_scraped_data_formatter/utils/timestamp_tracker.py:38 | the `%Y%m%dT%H%M%S` rendering is 15 characters with `T` at index 8 and digits elsewhere, and each field reads back as the datetime's own component |
| Layouts.ParseIsoOfFormat | openstates_scraped_data_formatter/utils/timestamp_tracker.py:89 | every datetime written by the `strftime` of the write step is read back unchanged by the ISO parser |
| Layouts.ParseCompactOfFormat | openstates_scraped_data_formatter/utils/timestamp_tracker.py:38 | every datetime rendered in the compact layout is read back unchanged by the compact parser |
| Layouts.ParseIsoExactly | openstates_scraped_data_formatter/utils/timestamp_tracker.py:36 | the ISO parser yields `d` if and only if the string is the ISO rendering of `d` |
| Layouts.ParseCompactExactly | openstates_scraped_data_formatter/utils/timestamp_tracker.py:38 | the compact parser yields `d` if and only if the string is the compact rendering of `d` |
| Layouts.DashSeparatesLayouts | openstates_scraped_data_formatter/utils/timestamp_tracker.py:35-38 | every ISO rendering contains `-` and no compact rendering does, so the `-` test picks the right layout for rendered values |
| TimestampTracker.StripZ | openstates_scraped_data_formatter/utils/timestamp_tracker.py:34 | `rstrip("Z")` gives a prefix of the input, with no trailing `Z`, where everything removed was a `Z` |
| TimestampTracker.StripZOfSuffixed | openstates_scraped_data_formatter/utils/timestamp_tracker.py:34 | all trailing `Z`s are removed, however many there are, and nothing else |
| TimestampTracker.ParseByDash | openstates_scraped_data_formatter/utils/timestamp_tracker.py:35-38 | a string with `-` resolves only as an ISO rendering and one without only as a compact rendering |
| TimestampTracker.ToDtObj | openstates_scraped_data_formatter/utils/timestamp_tracker.py:30-41 | a datetime passes through unchanged; `None` and any other non-string give `None`; a resolved string, once its `Z`s are stripped, renders the result in one of the two layouts |
| TimestampTracker.ToDtObjOfString | openstates_scraped_data_formatter/utils/timestamp_tracker.py:33-41 | a string resolves to `d` if and only if, without its trailing `Z`s, it is an ISO or compact rendering of `d`; any other string gives `None` |
| TimestampTracker.ToDtObjRoundTrip | openstates_scraped_data_formatter/utils/timestamp_tracker.py:34-38 | the ISO and compact renderings of `d`, with any number of `Z`s appended, resolve to `d` |
| TimestampTracker.ToDtObjOfRendering | openstates_scraped_data_formatter/utils/timestamp_tracker.py:36-38 | both renderings of `d` resolve to `d` |
| TimestampTracker.ToDtObjNoFallback | openstates_scraped_data_formatter/utils/timestamp_tracker.py:35-38 | a string containing `-` is resolved by the ISO layout alone; when that fails the result is `None`, with no compact fallback |
| TimestampTracker.ToDtObjIdempotent | openstates_scraped_data_formatter/utils/timestamp_tracker.py:30-32 | resolving a resolved value again, directly or through its ISO rendering, gives the same datetime |
| TimestampTracker.ParseIsoThenCompact | openstates_scraped_data_formatter/utils/timestamp_tracker.py:69-73 | trying ISO then falling back to compact agrees with choosing the layout by the `-` test |
| TimestampTracker.RawTimestamp | openstates_scraped_data_formatter/utils/timestamp_tracker.py:58 | a truthy `start_date` is used; otherwise `date`, or `None` when that is absent |
| TimestampTracker.IsNewerThanLatest | openstates_scraped_data_formatter/utils/timestamp_tracker.py:57-80 | a document is rejected if and only if the watermark is set, the document's date resolves, and that date is not after the watermark |
| TimestampTracker.IsNewerWithoutDate | openstates_scraped_data_formatter/utils/timestamp_tracker.py:62-63 | with neither a truthy `start_date` nor a truthy `date` the document is new, whatever the watermark |
| TimestampTracker.IsNewerUnparseable | openstates_scraped_data_formatter/utils/timestamp_tracker.py:78-80 | a date string neither layout parses lets the document through |
| TimestampTracker.IsNewerStartDateFirst | openstates_scraped_data_formatter/utils/timestamp_tracker.py:58 | with a truthy `start_date`, `date` has no influence on the outcome |
| TimestampTracker.IsNewerOfDated | openstates_scraped_data_formatter/utils/timestamp_tracker.py:77 | a document whose date resolves to `d` is new if and only if `d` is strictly after the watermark |
| TimestampTracker.IsNewerOfString | openstates_scraped_data_formatter/utils/timestamp_tracker.py:58-77 | a document with a single resolvable `start_date` or `date` string is new if and only if its date is strictly after the watermark |
| TimestampTracker.IsNewerStrict | openstates_scraped_data_formatter/utils/timestamp_tracker.py:77 | in either layout, a document dated at the watermark is not new and one dated later is |
| TimestampTracker.IsNewerAntitone | openstates_scraped_data_formatter/utils/timestamp_tracker.py:77 | a document new against a higher watermark is new against any lower one |
| TimestampTracker.UpdateLatestTimestamp | openstates_scraped_data_formatter/utils/timestamp_tracker.py:44-54 | absent candidate: existing kept. Absent existing: candidate taken. Otherwise the maximum. The table changes only when the watermark changes, and then only at the category's entry |
| TimestampTracker.UpdateIsLocalAndMonotone | openstates_scraped_data_formatter/utils/timestamp_tracker.py:48-54 | other categories' entries are unchanged and no key is added besides the category; the result is not below the existing value or the candidate |
| TimestampTracker.UpdateAllKeepsMaximum | openstates_scraped_data_formatter/utils/timestamp_tracker.py:44-54 | after a sequence of updates the watermark is not below the start or any candidate, is one of them, and is absent only if all were |
| TimestampTracker.UpdateAllTable | openstates_scraped_data_formatter/utils/timestamp_tracker.py:45-54 | after a sequence of updates the table is either untouched, with the watermark unmoved, or differs only in the category's entry, which holds the final watermark |
| TimestampTracker.UntouchedCategoryWrittenAsEpoch | openstates_scraped_data_formatter/utils/timestamp_tracker.py:9-13 | starting from the initial table, a category other than the one updated is read back as 1900-01-01 after the flush, whatever the previous file held |
| TimestampTracker.WriteLatestTimestampFile | openstates_scraped_data_formatter/utils/timestamp_tracker.py:83-104 | the write fails exactly when some value is truthy but neither string nor datetime. Otherwise nothing is written exactly when no value resolves. Otherwise it writes exactly the resolvable keys, each as the ISO rendering of its resolved datetime |
| TimestampTracker.FromJson | openstates_scraped_data_formatter/utils/timestamp_tracker.py:19-20 | a JSON string becomes a Python string; any other JSON value resolves to `None` |
| TimestampTracker.ReadAllLatestTimestamps | openstates_scraped_data_formatter/utils/timestamp_tracker.py:16-27 | an object file gives exactly its truthy keys, each resolved by `to_dt_obj`; any other file gives the three 1900-01-01 defaults |
| TimestampTracker.ReadAfterWrite | openstates_scraped_data_formatter/utils/timestamp_tracker.py:83-97 | reading back a written file gives exactly the resolvable keys of the table, each with its resolved datetime |
| TimestampTracker.ReadBackContents | openstates_scraped_data_formatter/utils/timestamp_tracker.py:20 | an object of ISO renderings reads back as the datetimes they render |
| TimestampTracker.WriteUniform | openstates_scraped_data_formatter/utils/timestamp_tracker.py:85-89 | a non-empty table whose values all resolve to `d` is written as `d`'s ISO rendering under every key |
| TimestampTracker.InitialTableResolves | openstates_scraped_data_formatter/utils/timestamp_tracker.py:9-13 | the initial table has the three categories, each resolving to 1900-01-01 00:00:00 |
| TimestampTracker.EpochRenderings | openstates_scraped_data_formatter/utils/timestamp_tracker.py:10 | 1900-01-01 00:00:00 renders as `19000101T000000` and `1900-01-01T00:00:00` |
| TimestampTracker.InitialTableWritesEpoch | openstates_scraped_data_formatter/utils/timestamp_tracker.py:9-13 | writing the initial table writes `1900-01-01T00:00:00` for `bills`, `vote_events` and `events` |
| TimestampTracker.UnreadableFileGivesDefaults | openstates_scraped_data_formatter/utils/timestamp_tracker.py:21-27 | a missing or undecodable file gives 1900-01-01 for all three categories |
| TimestampTracker.PartialFileIsNotCompleted | openstates_scraped_data_formatter/utils/timestamp_tracker.py:20 | a file naming only `bills` reads back as a map with only `bills`; the other categories are not defaulted |
| TimestampTracker.Jan2024Compact | openstates_scraped_data_formatter/utils/timestamp_tracker.py:38 | `20240101T000000` resolves to 2024-01-01 00:00:00 |
| IoUtils.CategoryOf | openstates_scraped_data_formatter/utils/io_utils.py:30-38 | the category is bills iff the name starts with `bill`; else vote events iff `vote_event`; else events iff `event`; otherwise none |
| IoUtils.Accept | openstates_scraped_data_formatter/utils/io_utils.py:40-51 | an accepted file appends its pair and nothing else to the list; the archive keeps holding exactly the `event_*` pairs of the list; the file's `missing_session` entry is gone iff its name starts with `event_` |
| IoUtils.Step | openstates_scraped_data_formatter/utils/io_utils.py:21-63 | one file raises iff it is a decoded categorised `.json` file and either the call is the three-argument one as written or its document is not an object; the crash keeps the outputs so far. Otherwise the file adds its pair iff it passes its filter, a record iff it is undecodable, and archives and clears its `missing_session` entry iff it is an accepted `event_*` file |
| IoUtils.FirstRaise | openstates_scraped_data_formatter/utils/io_utils.py:20-53 | the position of the first file whose processing raises: no file before it raises, and it raises unless it is the end of the listing |
| IoUtils.Scan | openstates_scraped_data_formatter/utils/io_utils.py:20-63 | the loop fails iff some file raises. On failure the exception is that of the first raising file, and the outputs so far are the reference outputs of the files before it. Otherwise the accepted pairs, error records, archived files and `missing_session` folder are the reference outputs of the whole listing |
| IoUtils.StepOutcome | openstates_scraped_data_formatter/utils/io_utils.py:21-51 | a step that does not raise turns the reference outputs of the files before a file into those of the listing including it |
| IoUtils.ReferenceSnoc | openstates_scraped_data_formatter/utils/io_utils.py:20-63 | the reference outputs of a listing are those without its last file plus that file's pair, record, archive entry and `missing_session` removal |
| IoUtils.LoadJsonFiles | openstates_scraped_data_formatter/utils/io_utils.py:12-65 | the corrected model, with the two-argument newness call. `KeyError` iff a category watermark is missing, naming the first missing one in the order `bills`, `vote_events`, `events`, with no file touched. Otherwise it raises `AttributeError` iff some categorised file holds a non-object, at the first such file, keeping the error records, archives and `missing_session` removals of the files before it. Otherwise the outputs are the listing filtered in order, one record per undecodable file, the `event_*` accepted files archived, and their names removed from `missing_session` |
| IoUtils.LoadJsonFilesAsWritten | openstates_scraped_data_formatter/utils/io_utils.py:12-65 | the code as written, with the three-argument call. `KeyError` iff a category watermark is missing, naming the first missing one in the order `bills`, `vote_events`, `events`, with no file touched. Otherwise it succeeds iff no decoded `.json` file has a category prefix; else it raises `TypeError` at the first such file, keeping the outputs of the files before it |
| IoUtils.AcceptedMembership | openstates_scraped_data_formatter/utils/io_utils.py:20-40 | a pair is accepted iff it is the original `(filename, data)` of a listed file that passes its filter |
| IoUtils.ErrorsMembership | openstates_scraped_data_formatter/utils/io_utils.py:53-63 | an error record exists iff it is the `invalid_json` record, with raw text, of an undecodable `.json` file |
| IoUtils.OnlyJsonNamesInOutputs | openstates_scraped_data_formatter/utils/io_utils.py:20-22 | every accepted pair and every error record names a `.json` file |
| IoUtils.AcceptedAndErrorsBounded | openstates_scraped_data_formatter/utils/io_utils.py:20-63 | accepted pairs plus error records number at most the `.json` names listed |
| IoUtils.EventFilesMembership | openstates_scraped_data_formatter/utils/io_utils.py:43-51 | a pair is archived iff it is accepted and its name starts with `event_` |
| IoUtils.RejectedLeavesNoTrace | openstates_scraped_data_formatter/utils/io_utils.py:31-38 | a file failing the newness check is not accepted, archived or recorded, and its `missing_session` entry is untouched |
| IoUtils.EventWithoutUnderscoreIsNotArchived | openstates_scraped_data_formatter/utils/io_utils.py:36-51 | an accepted `eventX.json` is not archived and its `missing_session` entry stays |
| IoUtils.SampleReference | openstates_scraped_data_formatter/utils/io_utils.py:53-63 | for `a.json`, undecodable `b.json`, `c.json`, the reference outputs are the two documents and one error record |
| IoUtils.MalformedFileDoesNotStopTheBatch | openstates_scraped_data_formatter/utils/io_utils.py:53-63 | an undecodable file between two good ones yields one error record and both documents, in order |
| IoUtils.PartialWatermarkFileRaises | openstates_scraped_data_formatter/utils/io_utils.py:15-17 | watermarks read from a file naming only `bills` make the loader raise `KeyError` on `vote_events` before any file is touched |
| IoUtils.CrashKeepsEarlierArchive | openstates_scraped_data_formatter/utils/io_utils.py:43-51 | an `event_1.json` archived, with its `missing_session` file removed, stays so when a later `bill_1.json` holding an array raises `AttributeError` |
| IoUtils.CrashKeepsEarlierRecords | openstates_scraped_data_formatter/utils/io_utils.py:53-63 | as written, the `invalid_json` record of an undecodable `b.json` stays when a later `bill_1.json` raises `TypeError` |
| IoUtils.BillFileAsWrittenVersusIntended | openstates_scraped_data_formatter/utils/io_utils.py:30-31 | for one `bill_1.json` and the default watermarks, the code as written raises `TypeError` while the two-argument call accepts the file |
| IoUtils.BillFileOutcomes | openstates_scraped_data_formatter/utils/io_utils.py:30-31 | for one undated `bill_1.json` and any complete watermarks, the code as written raises `TypeError` with nothing done while the two-argument call accepts the file |

## Left out

- File and directory I/O (`open`, `json.load`, `json.dump`, `mkdir`, `unlink`, `exists`, `os.listdir`) and `LATEST_TIMESTAMP_PATH` are not modelled. Listings, decode outcomes and file contents are inputs, and writes are outputs.
- All `print` logging is left out; it has no effect on results.
- `record_error_file` lives in `utils/file_utils`, which is not part of this model. An error is the `ErrorRecord` it would be given, appended to `Batch.errors`.
- Layouts.ParseIso: does not accept everything `strptime` accepts. Unpadded fields, a lower-case `t` and non-ASCII digits are rejected, so a string accepted only leniently resolves to `None` in the model.
- Layouts.ParseCompact: does not accept everything `strptime` accepts, for the same reasons as `ParseIso`.
- Layouts.FormatIso: pads the year to four digits. The platform `strftime` may leave years below 1000 unpadded, which the model does not reproduce.
- Microseconds and time zones are left out. Neither layout carries them, and every datetime in this code is naive.
- JSON numbers are integers only. Floating point values are not modelled; they matter here only through truthiness.
- The loader's listing holds files only. A directory whose name ends in `.json` makes `open` raise `IsADirectoryError`, which is not modelled.
- File contents that are not valid UTF-8 make the read raise `UnicodeDecodeError`, which the loop does not catch. The model sees files only as decoded JSON or undecodable text, so this failure is not modelled.
- The order of `os.listdir` is whatever the input sequence says. The model fixes no order.
- Only `start_date` and `date` are read, for every category. No extraction from bill actions exists in this code, so none is modelled.
- When an `event_*` file is archived, the copy written is the accepted document itself. The JSON text layout (`indent=2`) is not modelled.
- The overwrite of a watermark in the global table is the returned `Table`. The update's `print` of the table is left out.

## Findings

| source | as written | input that shows it | evidently intended | confidence | as-written member | corrected member |
|---|---|---|---|---|---|---|
| openstates_scraped_data_formatter/utils/io_utils.py:30-38 | `is_newer_than_latest(data, ts, "bill")` and its two siblings pass three arguments to a two-parameter function. The call raises `TypeError`, which escapes the `except json.JSONDecodeError` | a listing holding one decodable `bill_1.json` containing `{}` | call `is_newer_than_latest(data, ts)` and accept or skip the file by the newness check | not executed | IoUtils.BillFileAsWrittenVersusIntended | IoUtils.LoadJsonFiles |
