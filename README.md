# elasticprune in Dafny

`elasticprune.py` deletes daily search-engine indices that have outlived a
retention window. It merges command-line options into module-level defaults.
It lists the index catalog and keeps the names that contain the index pattern.
For each kept name it removes every `<pattern>-`, splits the rest on `.`, and
reads a `datetime.date` from the three pieces. It then sends a DELETE for every
index strictly older than `days_to_keep` days. There are two kinds of failure:

- Fatal: the catalog cannot be listed, a name holds no readable date, or a
  DELETE finds no server. The script exits with status 1, and no later index
  is touched.
- Per-item: a DELETE answered with any status other than 200. That index is
  skipped and the loop goes on.

This project models that decision pipeline and proves its properties:

- `results.dfy`: `Option` and `Result`.
- `sequences.dfy`: subsequences and an order-keeping filter (the list
  comprehension).
- `text.dfy`: the Python string operations the script uses:
  - `sub in s`
  - `s.replace(p, '')`
  - `s.split('.')`
  - `int()` on digit strings
  - zero-padded decimals, used to build daily index names
- `calendar.dfy`: `datetime.date` validity (years 1 to 9999, Gregorian leap
  years), `toordinal()` and date subtraction.
- `configuration.dfy`: the defaults and the truthiness-guarded option merge.
- `index_names.dfy`: the date extractor and the catalog filter.
- `pruning.dfy`: the catalog listing, the status handling of `delete_index`
  and the loop of `delete_old_indices`.
  - The loop is an imperative method, `DeleteOldIndices`. It is proved equal
    to a fold, `Prune`, over the selected names.
  - The properties of the run are proved about that fold.
- `scenarios.dfy`: whole runs on concrete listings. Today is 2024-03-10 and
  seven days are kept.

The search engine is represented by its answers. The catalog response is an
input: no connection, or a status with the decoded `index` fields. The answer
to each DELETE is a function `server(name)`: no connection, or a status. A run
records the DELETEs it sent, in order, and the ones answered with 200. It also
records the fatal condition that stopped it, if any. The exit status is 1
exactly when a fatal condition occurred.

The model follows what the code does, where that departs from its comment or
from a narrower reading of it:

- The comment at elasticprune.py:10 says names look like
  `<INDEX-GLOB>-YYYY-MM-DD`. The code splits on `.`, so only
  `<glob>-YYYY.MM.DD` names carry a date.
- The date extractor removes every occurrence of `<glob>-` anywhere in the
  name, not only a leading one (`str.replace`).
- The filter keeps names that contain the pattern anywhere, not only as a
  prefix.

## Model

| member | source | states |
|---|---|---|
| `Configuration.Merge` | elasticprune.py:85-94 | Each of the five settings either keeps its base value or takes a command-line value that is truthy (present and non-empty, or non-zero). |
| `Configuration.TruthyOverrides` | elasticprune.py:85-94 | A truthy command-line value always replaces the setting. |
| `Configuration.FalsyKeepsDefault` | elasticprune.py:8-13 | A missing, empty or zero option leaves the default: `http://localhost:9200`, 7 days, `filebeat`, `error`, `elasticprune.log`. |
| `Configuration.MergedSettingsNonZero` | elasticprune.py:87-90 | After the merge, the retention is never 0 days (`-d 0` keeps 7) and the pattern is never empty. |
| `Configuration.MergeIdempotent` | elasticprune.py:85-94 | Applying the same options a second time changes nothing. |
| `Configuration.MergeNoArgs` | elasticprune.py:85-94 | Without options, every setting keeps its base value. |
| `Text.Contains` | elasticprune.py:44 | `sub in s`: a pattern that occurs is never longer than the name, and the empty pattern occurs in every name. |
| `Text.ContainsAt` | elasticprune.py:44 | `glob in name` holds exactly when some window of the name equals the pattern. |
| `Text.RemoveAll` | elasticprune.py:21 | `replace(p, '')` never lengthens the name, adds no new character, and leaves a name without `p` unchanged. A name holding a non-empty `p` loses at least its length. |
| `Text.RemoveAllAfter` | elasticprune.py:21 | An occurrence of `p` after other text is removed too: when `p` first occurs right after `a`, `a + p + b` becomes `a` followed by `b` with `p` removed. |
| `Text.RemoveAllLeading` | elasticprune.py:21 | A leading occurrence of the pattern is deleted, and the scan goes on after it. |
| `Text.Split` | elasticprune.py:23 | `split('.')` gives one piece more than there are dots, no piece holds a dot, and the pieces joined with dots give back the text. |
| `Text.SplitJoin` | elasticprune.py:23 | Splitting undoes joining when no part holds the separator. |
| `Text.ParseNat` | elasticprune.py:25 | Reading an integer succeeds exactly on non-empty strings of decimal digits, and yields their base-10 value. |
| `Calendar.IsValid` | elasticprune.py:25 | `date()` accepts a day of at most 31, and accepts February 29 exactly in a leap year from 1 to 9999. |
| `Calendar.ToOrdinal` | elasticprune.py:63 | A date's ordinal lies within its year's span, and every date `date()` accepts has an ordinal between 1 and 3652059. |
| `Calendar.AgeDays` | elasticprune.py:63 | `(today - d).days` is 0 exactly for today's date and positive exactly for an earlier date. |
| `Calendar.OrdinalNextDay` | elasticprune.py:63 | The day after a date has the next ordinal, so date differences count calendar days. |
| `Calendar.FirstOrdinal` | elasticprune.py:63 | 0001-01-01 has ordinal 1. |
| `Calendar.DaysBeforeYearStep` | elasticprune.py:63 | The closed-form year offset grows by 366 after a leap year and by 365 after any other year. |
| `Calendar.OrdinalOrder` | elasticprune.py:63 | One ordinal is smaller than another exactly when its date is earlier, and equal exactly when the dates are the same. |
| `IndexNames.DatePart` | elasticprune.py:21 | A name without `<glob>-` is left whole; one that holds it loses at least its length. |
| `IndexNames.ParseIndexDate` | elasticprune.py:19-28 | The parse succeeds exactly when the remainder splits into three decimal pieces whose values form a valid date, and then yields that date. |
| `IndexNames.ReadDate` | elasticprune.py:23-25 | Three pieces give a date exactly when all are decimal and their values form a valid date, and the date is the one of their values. |
| `IndexNames.DatePartOfDottedName` | elasticprune.py:21 | Removing every `<glob>-` from `<glob>-Y.M.D` leaves exactly `Y.M.D`. |
| `IndexNames.ParseDigits` | elasticprune.py:21-28 | `<glob>-Y.M.D` with digit strings Y, M, D parses to the date of their values when that date exists. Otherwise it fails with `NotACalendarDate`. |
| `IndexNames.IndexNameRoundTrip` | elasticprune.py:21-25 | Parsing the daily index name of a date gives back that date. |
| `IndexNames.WrongPartCountFails` | elasticprune.py:21-28 | A remainder without exactly two dots is a fatal `NotThreeParts` error, not a skip. |
| `IndexNames.UndatedNameMalformed` | elasticprune.py:21-28 | `<glob>-<rest>` whose rest holds no '-' and no '.', such as `filebeat-latest`, is a fatal `NotThreeParts` error. |
| `IndexNames.NonIntegerPartFails` | elasticprune.py:23-28 | Three pieces, one of them not an integer, is a fatal `NotAnInteger` error. |
| `IndexNames.SelectIndices` | elasticprune.py:44 | A name is selected exactly when it is in the catalog and contains the pattern, as many times as the catalog lists it, and the selection is a subsequence of the catalog. |
| `IndexNames.SelectAppend` | elasticprune.py:44 | Selection works entry by entry: selecting from a concatenation concatenates the selections. |
| `IndexNames.SelectIdempotent` | elasticprune.py:44 | Selecting a second time with the same pattern changes nothing. |
| `IndexNames.SelectAll` | elasticprune.py:44 | A catalog whose names all contain the pattern is selected whole and in order. |
| `IndexNames.IndexNameSelected` | elasticprune.py:44 | Every daily index name of the pattern is selected. |
| `Pruning.ExitCode` | elasticprune.py:105-106 | The exit status is 0 exactly when no fatal condition occurred, and 1 exactly when one did. |
| `Pruning.GetIndices` | elasticprune.py:30-44 | The listing succeeds exactly on a 200 answer. It then yields the selection of the catalog: the names containing the pattern, each as often as listed, in catalog order. No connection or any other status is fatal. |
| `Pruning.DeleteIndex` | elasticprune.py:46-57 | The result is 0 exactly on 200, and 1 exactly on any other status. No connection is fatal. |
| `Pruning.IsStale` | elasticprune.py:66 | An index exactly as old as the window is kept, since the comparison is strict. With a window of zero or more, only an index dated before today is stale. |
| `Pruning.IsStaleName` | elasticprune.py:62-66 | A stale name always carries a readable date, which is before today when the window is zero or more. |
| `Pruning.Step` | elasticprune.py:60-70 | One pass only appends to what was sent and deleted, and leaves a stopped run unchanged. |
| `Pruning.StepMalformed` | elasticprune.py:62-63 | A name with no readable date stops the run and sends nothing. |
| `Pruning.StepKeeps` | elasticprune.py:66-70 | A name whose date is within the window leaves the run unchanged. |
| `Pruning.StepDeletes` | elasticprune.py:66-68 | A stale name answered with 200 is sent and deleted, and the run goes on. |
| `Pruning.StepSkips` | elasticprune.py:53-55 | A stale name answered with another status is sent but not deleted, and the run goes on. |
| `Pruning.StepUnreachable` | elasticprune.py:48-52 | A stale name whose DELETE finds no server is sent, then the run stops. |
| `Pruning.Prune` | elasticprune.py:59-70 | The loop only appends to what was sent and deleted, and leaves a stopped run unchanged. |
| `Pruning.DeleteOldIndices` | elasticprune.py:59-70 | The imperative loop, with its early exits, produces exactly the run of the fold over the selected names. |
| `Pruning.PruneRun` | elasticprune.py:59-70 | A failed listing sends and deletes nothing and exits with status 1. A listing answered with 200 runs the loop over exactly the selection of the catalog. |
| `Pruning.Script` | elasticprune.py:85-106 | Every DELETE the script sends names a catalog entry that is stale under the merged settings. |
| `Pruning.ScriptNoArgs` | elasticprune.py:85-105 | Without options, the script prunes with the defaults. |
| `Pruning.ScriptZeroDays` | elasticprune.py:87-88 | A whole run with `-d 0` is the run without `-d`, and keeps seven days. |
| `Pruning.PruneAppend` | elasticprune.py:60 | Names are processed in order: looping over `a + b` is looping over `a` and then over `b`. |
| `Pruning.StaleNames` | elasticprune.py:66 | A name is stale exactly when it is in the listing and its age exceeds the window, and the stale names keep listing order. |
| `Pruning.AllStale` | elasticprune.py:66-67 | A listing of stale names only is sent whole. |
| `Pruning.CleanRun` | elasticprune.py:59-70 | With no malformed name and a reachable server, the run sends exactly the stale names, in order. It goes on past every non-200 answer, deletes exactly those answered with 200, and ends normally. |
| `Pruning.OrderedAbort` | elasticprune.py:60-67 | When the first malformed name is at position k, every stale name before it was sent, and no name from position k on is touched. |
| `Pruning.DeleteUnreachableAborts` | elasticprune.py:48-52 | A DELETE with no server ends the run at that name. Every earlier stale name was sent, this one was attempted, and no later name is touched. |
| `Pruning.MalformedNameStops` | elasticprune.py:26-28 | Once a malformed name is reached, none of the names after it is processed. |
| `Pruning.RunSendsOnlyStale` | elasticprune.py:59-70 | Whatever happens, a DELETE is sent only for a listed name that contains the pattern and carries a stale date. Only a name answered with 200 counts as deleted. |
| `Pruning.PruneDeletesOnlyRequested` | elasticprune.py:53-57 | Every deleted name was also sent. |
| `Pruning.StaleStaysStale` | elasticprune.py:63-66 | An index that is stale today is still stale tomorrow. |
| `Scenarios.DailyIndexStale` | elasticprune.py:63-66 | The daily index name of a date carries a date, and is stale exactly when that date is older than the window. |
| `Scenarios.RetentionExample` | elasticprune.py:63-70 | March 1, 5 and 9 are 9, 5 and 1 days old. Only March 1 is deleted, and the exit status is 0. |
| `Scenarios.SkipExample` | elasticprune.py:53-57 | Three stale indices, the middle one answered with 404. All three are sent, the other two are deleted, and the exit status is 0. |
| `Scenarios.AbortExample` | elasticprune.py:59-67 | The catalog lists March 1, `<glob>-latest`, then March 9, and all three are selected. March 1 is deleted, the undated name stops the run with status 1, and March 9 is never examined. |
| `Scenarios.LeapDayRejected` | elasticprune.py:25-28 | `<glob>-2023.02.29` names no date, because 2023 is not a leap year. It is a fatal error. |

## Left out

- HTTP through `urllib3.PoolManager` (elasticprune.py:31-39, 47-52) is foreign network I/O. The catalog answer is an input, and each DELETE answer is the value of a function of the index name. The host name takes part only in those requests, so it plays no role in the model.
- `json.loads` of the catalog body and the `entry['index']` lookups (elasticprune.py:41-44) are foreign library calls. The decoded names are an input, so a body that is not JSON or lacks `index` fields is not modelled.
- Logging, and the log level and log file settings, are not modelled: they are side effects only. The fallback at elasticprune.py:100 calls `log_level.DEBUG` on a string, which raises an uncaught `AttributeError`; it is not modelled either.
- `date.today()` (elasticprune.py:16-17) is clock state. `today` is a parameter, fixed for the whole run. The script reads the clock again for every index, so a run that crosses midnight can use two dates; the model does not capture that.
- `argparse` parsing (elasticprune.py:77-83) is a library call. The model starts from the options as parsed, each one missing or present.
- `int()` is modelled on non-empty strings of ASCII digits only. Python also accepts surrounding whitespace, a sign, `_` separators and non-ASCII digits. A name that uses those parses in the script but is reported malformed by the model.
- The `except TypeError` branch at elasticprune.py:64-65 cannot be reached. `process_index_date` either returns a date or exits, and subtracting two dates raises no `TypeError`. It is left out.
- Process exit is not modelled as a mechanism. A fatal condition is a value in the run (`Run.fatal`), and `ExitCode` maps it to the status.
- A name the catalog lists twice is selected twice and, if stale, sent twice. The answer to a DELETE is a function of the name alone, so the model gives the second request the same answer as the first. The real server would answer the second one for an index already removed, typically with 404.
- `delete_old_indices` ignores the 0 or 1 that `delete_index` returns. The model still records which DELETEs were answered with 200 (`Run.deleted`), to state what the run achieved.
