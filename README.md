# verify-grpc-logs, modelled in Dafny

`verify-grpc-logs.py` is a one-off script. For each of five gRPC API functions, it searches
the Datadog logs API (`env:prod "handled request for <name>"`, last seven days, newest first).
It checks whether the newest log entry mentions the fields the function's response should
carry, prints a sample of the entry's content, and ends with a summary table and a verdict.

This project models the deterministic rules inside that glue:

- `EnvFile` covers `load_env`: `.env` lines become `KEY=VALUE` entries, and the last definition
  of a key wins. It also resolves the two credentials (`DD_API_KEY`, `DD_APP_KEY`): the file
  value is used when it is non-empty, otherwise the environment's. The run aborts with status 1
  when either credential is unset.
- `Search` covers `search_logs`: the query text, the seven-day window and the request.
  Both failure paths return the empty result `{"data": []}`, and an HTTP error body is shown
  cut to 500 characters.
- `Inspect` covers `check_fields_in_response`: a case-insensitive substring test per expected
  field, giving an insertion-ordered dictionary. It also covers the found/missing split and
  `extract_response_body`, which is a first match over five candidate locations cut to 2000
  characters.
- `Report` covers the per-function summary record and its NO_LOGS / FOUND / NO_EXPECTED_FIELDS
  status, the 30-line sample view and the 28-character "Fields Found" column. It also covers
  the all / partial / none verdict.
- `Script` covers the whole run. Credentials are resolved first. Then `main` loops over the
  functions, issuing one search each and appending one summary record each. The verdict
  comes last.
- `Text` and `JsonValues` hold the Python string operations the script uses (ASCII only) and
  a tagged-union model of decoded JSON.

Serialisation is not modelled: `json.dumps(entry)` and `json.dumps(x, indent=2)` are the
function parameters `dumps` and `render`. The clock and the HTTP outcome of each search come
in as a `SearchWorld` per function. The `.env` lines and the process environment are inputs.

Four behaviours of the code that are easy to misread; the model follows the code:
- An empty value in `.env` falls back to the environment, because the code uses `or`. The
  environment is not consulted only when the file lacks the key.
- A candidate content location is used only when it is non-empty, not merely present.
- The verdict is "all" whenever the FOUND count equals the total, including an empty list.
- `extract_response_body` raises when the entry, its `attributes`, or the inner `attributes`
  is not a mapping. The model reports this as `None`, and the run stops with status 1.

## Model

| member | source | states |
|---|---|---|
| EnvFile.ParseLineAccepts | verify-grpc-logs.py:29-30 | a line yields an entry iff, once stripped, it is non-empty, does not start with `#`, and contains `=` |
| EnvFile.ParseLineSplits | verify-grpc-logs.py:31-32 | the entry is the stripped text before the first `=` and the stripped text after it; the key holds no `=`, and neither part has surrounding whitespace |
| EnvFile.ParseLineRendered | verify-grpc-logs.py:28-32 | writing `key=value` for a key (possibly empty) without `=` or leading `#` and any value, with key and value free of surrounding whitespace, and parsing it gives back the same pair |
| EnvFile.LoadEnv | verify-grpc-logs.py:21-34 | the loop over the lines builds exactly the dictionary `EnvOf(lines)` |
| EnvFile.EnvOfSpec | verify-grpc-logs.py:28-32 | a key is present iff some line defines it, and its value is the one given by the last line that defines it |
| EnvFile.LastDefinitionWins | verify-grpc-logs.py:32 | a later duplicate key overrides every earlier one |
| EnvFile.LoadCredentials | verify-grpc-logs.py:38-44 | succeeds iff each credential is non-empty in the file or in the environment; each credential is the file value when non-empty, else the environment value |
| EnvFile.FileOverridesEnvironment | verify-grpc-logs.py:38-40 | non-empty file definitions of both keys decide the credentials, whatever the environment holds |
| Search.QueryRoundTrip | verify-grpc-logs.py:87 | the function name can always be read back from its query, so the query is exactly `env:prod "handled request for ` + name + `"` |
| Search.QueryInjective | verify-grpc-logs.py:87 | different function names give different queries |
| Search.QueryMentions | verify-grpc-logs.py:87 | the query contains `env:prod` and the phrase `handled request for <name>` |
| Search.BuildRequest | verify-grpc-logs.py:84-105 | the request goes to the logs search URL and carries the query for the name, a window ending now and starting exactly seven days earlier, sort `-timestamp`, the page limit and both credentials |
| Search.ErrorBodyShown | verify-grpc-logs.py:118 | the shown error body is the whole body when it has at most 500 characters, exactly its first 500 characters otherwise, and empty when there is no body |
| Search.FailuresYieldNoLogs | verify-grpc-logs.py:116-123 | an HTTP error and a URL error both give `{"data": []}`, which holds no log entries |
| Inspect.MatchesVerbatim | verify-grpc-logs.py:132-137 | a field that occurs verbatim in the serialised entry is found |
| Inspect.MatchesIgnoresCase | verify-grpc-logs.py:132-137 | whether a field is found depends only on the lower-case forms of the field and of the entry |
| Inspect.CheckFieldsInResponse | verify-grpc-logs.py:126-139 | the loop builds exactly the dictionary `FieldResults(serialised, fields)` |
| Inspect.FieldResultsKeys | verify-grpc-logs.py:134-137 | the result has exactly one entry per distinct expected field |
| Inspect.FieldResultsValues | verify-grpc-logs.py:137 | each entry's value is whether the lower-cased field occurs in the lower-cased serialised entry |
| Inspect.FieldResultsOrder | verify-grpc-logs.py:134-137 | entries are in the order in which their fields first appear in the expected list |
| Inspect.PartitionOrder | verify-grpc-logs.py:209-210 | the found and missing lists keep the dictionary's order |
| Inspect.PartitionCount | verify-grpc-logs.py:209-210 | found and missing together hold every key of the dictionary exactly as often as it does |
| Inspect.PartitionMembers | verify-grpc-logs.py:209-210 | found holds exactly the keys marked true and missing exactly those marked false, so the two are disjoint |
| Inspect.FieldSplit | verify-grpc-logs.py:207-210 | for an entry, a field is in found iff it is expected and matches, and in missing iff it is expected and does not match |
| Inspect.FirstQualifying | verify-grpc-logs.py:157-158 | returns the index of the first candidate that is a non-empty string or mapping, or none when no candidate qualifies |
| Inspect.ExtractResponseBody | verify-grpc-logs.py:142-163 | a sample exists iff the entry, its attributes and its inner attributes are mappings, and is never longer than 2000 characters |
| Inspect.ExtractPicksFirst | verify-grpc-logs.py:149-161 | the first qualifying candidate in the order response_body, response, body, message, inner attributes gives the sample (the string itself, or a mapping's rendering) cut to 2000 |
| Inspect.ExtractFallsBack | verify-grpc-logs.py:163 | when no candidate qualifies (empty strings, empty maps, numbers, lists are skipped), the inner attributes are empty and the outer attributes are rendered, cut to 2000 |
| Report.Classify | verify-grpc-logs.py:190-232 | zero logs gives NO_LOGS with 0 logs and no fields; otherwise the status is not NO_LOGS; the status is FOUND iff the found list is non-empty |
| Report.ClassifySplit | verify-grpc-logs.py:205-232 | with logs, found and missing are disjoint, partition the distinct expected fields in first-appearance order, and FOUND holds iff some expected field matches the first entry |
| Report.ViewSample | verify-grpc-logs.py:219-224 | at most 30 sample lines are shown, they are the first lines of the sample, and the truncation marker appears iff some lines are not shown |
| Report.ViewSampleComplete | verify-grpc-logs.py:221-224 | the marker appears iff the sample has 30 or more newlines (more than 30 lines); an untruncated view joined with newlines is the whole sample |
| Report.FieldsColumn | verify-grpc-logs.py:246 | the column is at most 28 characters and is either `none` or a non-empty prefix of the `", "`-joined found fields |
| Report.FieldsColumnShows | verify-grpc-logs.py:246 | the column is `none` exactly when the `", "`-joined found fields are empty (in particular when none was found), and otherwise that joined text cut to 28 characters |
| Report.FoundCountSpec | verify-grpc-logs.py:257-264 | the FOUND count is at most the total, equals it iff every record is FOUND, and is 0 iff none is; the missing names are an order-keeping selection of the function names, one per non-FOUND record, naming exactly the non-FOUND functions; `SummaryAppend` fixes which occurrences when names repeat |
| Report.SummaryAppend | verify-grpc-logs.py:257-264 | the FOUND count and the missing list distribute over concatenation, and one record counts once when FOUND and is listed by name otherwise, which fixes both for every summary, repeated names included |
| Report.ConcludeSpec | verify-grpc-logs.py:257-266 | "all" iff every record is FOUND; "partial" iff some are and some are not, with the FOUND count and exactly the non-FOUND functions' names in order (repeated names included); "none" iff there are records and none is FOUND |
| Script.CheckFunction | verify-grpc-logs.py:203-232 | for a function with logs, raises iff the sample extraction raises; otherwise the appended record is the classification of its logs |
| Script.VerifyFunctions | verify-grpc-logs.py:173-232 | one request per function searched, built from its name, limit 3 and the clock; one record per function in list order, each its classification; stops at the first function whose sample extraction raises |
| Script.Run | verify-grpc-logs.py:37-266 | missing credentials give exit status 1 with no search issued; otherwise the run either finishes with status 0, all records and the verdict on them, or stops with status 1 exactly when some sample extraction raises, having issued the searches up to and including the first function whose extraction raises and recorded every function before it |
| Script.AllFailuresConcludeNone | verify-grpc-logs.py:190-201 | when every search fails, every function is NO_LOGS and (with at least one function) the verdict is "none" |
| Script.AllMatchesConcludeAll | verify-grpc-logs.py:257-261 | when every function's first entry matches one of its expected fields, the verdict is "all" |
| EnvFile.ParseLine | verify-grpc-logs.py:29-32 | the entry one line contributes; its contract is stated by `ParseLineAccepts`, `ParseLineSplits` and `ParseLineRendered` |
| EnvFile.EnvOf | verify-grpc-logs.py:28-32 | the dictionary after reading the lines in order; its contract is stated by `EnvOfSpec` and `LastDefinitionWins` |
| EnvFile.Resolve | verify-grpc-logs.py:39-40 | `file.get(key) or getenv(key)` on optional strings; its outcome is stated by `LoadCredentials` |
| EnvFile.Chosen | verify-grpc-logs.py:39-40 | the credential resolution yields when set: the file value if non-empty, else the environment value; `LoadCredentials` proves the resolved credentials equal it |
| Search.Query | verify-grpc-logs.py:87 | the query text for a function name; its contract is stated by `QueryRoundTrip`, `QueryInjective` and `QueryMentions` |
| Search.SearchLogs | verify-grpc-logs.py:113-123 | the value `search_logs` returns for each HTTP outcome; `FailuresYieldNoLogs` states that both failures give the empty result |
| Search.LogsOf | verify-grpc-logs.py:190 | `response.get("data", [])` as a list of entries; `FailuresYieldNoLogs` states it is empty for the failure result |
| Inspect.Matches | verify-grpc-logs.py:132-137 | the case-insensitive substring test of one field; its contract is stated by `MatchesVerbatim` and `MatchesIgnoresCase` |
| Inspect.FieldResults | verify-grpc-logs.py:132-137 | the dictionary of found-status per field; its contract is stated by `FieldResultsKeys`, `FieldResultsValues` and `FieldResultsOrder` |
| Inspect.FoundFields | verify-grpc-logs.py:209 | the fields marked found, in dictionary order; its contract is stated by `PartitionOrder`, `PartitionCount` and `PartitionMembers` |
| Inspect.MissingFields | verify-grpc-logs.py:210 | the fields marked missing, in dictionary order; its contract is stated by `PartitionOrder`, `PartitionCount` and `PartitionMembers` |
| Inspect.AttributeMaps | verify-grpc-logs.py:146-154 | the outer and inner attribute mappings, absent when a `.get` would raise; `ExtractResponseBody` states that a sample exists exactly when they are present |
| Inspect.Candidates | verify-grpc-logs.py:149-155 | the five candidate values in priority order; `ExtractPicksFirst` and `ExtractFallsBack` state how they decide the sample |
| Inspect.Shown | verify-grpc-logs.py:159-161 | a string as itself, a mapping through the `indent=2` rendering; used by `ExtractPicksFirst` |
| Report.FoundCount | verify-grpc-logs.py:257 | the number of FOUND records; its contract is stated by `FoundCountSpec` and `SummaryAppend` |
| Report.NotFoundNames | verify-grpc-logs.py:264 | the names of the non-FOUND records in list order; its contract is stated by `FoundCountSpec` and `SummaryAppend` |
| Report.Conclude | verify-grpc-logs.py:257-266 | the all / partial / none verdict; its contract is stated by `ConcludeSpec` with `SummaryAppend` |

## Left out

- HTTP and TLS (`urlopen`, the SSL context, the 30-second timeout) are not modelled. Each search's outcome is an input: a decoded body, an HTTP error with its optional body, or a URL error. A body that fails to decode as JSON is not modelled.
- Reading the `.env` file and `os.getenv` are not modelled. The file's lines (empty when there is no file) and the environment are inputs.
- The clock is an integer number of seconds, read once per search and given as input. `strftime` formatting of the window is not modelled.
- `json.dumps` (compact and `indent=2`) is not modelled. It is given as the parameters `dumps` and `render`.
- JSON numbers are integers. Floating-point values are not modelled.
- Case folding and whitespace cover ASCII only. `str.lower` maps only `A`-`Z`. `str.strip` removes only the ASCII whitespace Python recognises (tab through carriage return, 0x1C-0x1F, space).
- Search.LogsOf: a response whose `data` member is present but not a list (or a response that is not an object) is treated as having no logs. The source would take `len()` of whatever value it finds, or raise.
- The report's layout is not modelled: `print`, the emoji markers, column padding, separators, the header and description lines, and the HTTP status and reason diagnostics. The per-function sample display is modelled by `ViewSample` on its own; it is not part of the run's result.
- The `Content-Type` header and the URL are fixed constants. Only the two credential headers are carried in `SearchRequest`.
- The hardcoded `API_FUNCTIONS` table is not modelled. The functions to check are an input.
- Report.Classify: a NO_LOGS record has no `fields_missing` key in the source. Here that list is empty, and nothing reads it.
- A non-UTF-8 HTTP error body is not modelled. At line 118, `decode('utf-8')` raises on such a body, and the run ends with status 1. `HttpError` holds only a decoded body, so the model always returns `{"data": []}` and goes on.
- Member order inside JSON objects is not modelled. `JObj` is a map, while `json.dumps` (lines 132, 160, 163) writes members in insertion order. So `dumps` and `render` give the same text for two entries whose members differ only in order.
