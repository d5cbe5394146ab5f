# Screenshot extractor for browser results: a Dafny model

The repository ships two near-duplicate Python scripts. Each reads a JSON
dump of browser-automation results and finds the entries whose
`metadata.screenshot` holds a `data:image/...` payload. It writes each such
payload, unchanged, to its own text file under `extracted_screenshots`.
This project models `extract_screenshots` in both scripts and proves what
they do with the entries they are given.

- `text.dfy`, module `Text`: the Python string operations the scripts use.
  These are `str.startswith`, `str.replace`, `split(sep)[0]`, `s[:n]`,
  `str(n)`, two-digit zero padding and the filter that keeps letters,
  digits, `.`, `-` and `_`. Each is a function, and lemmas state its
  properties.
- `json.dfy`, module `Json`: the decoded JSON.
  - An entry has an optional `id`, `url`, `timestamp`, `metadata.screenshot`
    and `data.navigated`.
  - A document has optional `contents` and `recentResults`.
  - The module also holds the screenshot filter that both scripts share, the
    count of qualifying entries and their positions.
- `browser_mcp.dfy`, module `BrowserMcp`: `examples/browser-mcp/extract-screenshots.py`.
  It reads the wrapped shape (`contents[0].text`) or the direct shape.
  Files are named `screenshot_NN_<time>_<domain>.txt`. The first write that
  raises ends the run.
- `top_level.dfy`, module `TopLevel`: `extract-screenshots.py`. It reads only
  the direct shape. Files are named `<timestamp>_<clean url>_<id>.txt`.
  Each write has its own handler, so the loop goes on after a failed write.
  The module also models the argument check in `main`.

Each loop is a `method` with a `while` loop. Its invariant ties the loop
variables to `Run(entries[..i])`. `Run` is a function built from one `Step`
per entry, and lemmas prove the scripts' promises about it. Both loops are
stated over a naming rule `Namer`, a function from an entry and a counter or
an index to a name. `ExtractScreenshots` passes the script's rule:
`PathFor(parse)` in `BrowserMcp` and `FileNameRule()` in `TopLevel`. The
file-name lemmas are proved about those rules.

Inputs that come from code outside the scripts are parameters:
- `InnerDecoder` is `json.loads` of the wrapped text. `None` stands for a
  `JSONDecodeError`.
- `TimeParser` is `datetime.fromisoformat` followed by `strftime`. It returns
  an optional `YYYYMMDD_HHMMSS` stamp.
- `WriteOutcomes` says whether each write attempt succeeds. The attempt is
  identified by its `screenshot_count`.

The two scripts differ in three ways the model keeps apart:
- Only `extract-screenshots.py` catches a failing write (lines 76-86): it
  reports the error and goes on with the next entry. In
  `examples/browser-mcp/extract-screenshots.py` the write (lines 75-76) has
  no handler of its own. Its exception reaches the handler around the whole
  run (lines 103-104), so no later entry is processed. `BrowserMcp` models
  this as the `Aborted` outcome.
- In the browser-mcp script, `'{}'` is the text used only when
  `contents[0]` has no `text` field (line 31). A text that is present but
  not JSON raises `JSONDecodeError`, which is reported (lines 100-102) and
  ends the run without writes. This is the `InnerJsonError` outcome.
- The browser-mcp script logs a line for every entry without a screenshot
  (lines 84-90). `extract-screenshots.py` logs nothing for such an entry.

## Model

| member | source | states |
|---|---|---|
| Text.ReplaceChar | extract-screenshots.py:66 | replacing one character by another maps the string pointwise and keeps its length |
| Text.ReplaceAbsent | extract-screenshots.py:66 | a pattern holding a character the string lacks leaves the string unchanged |
| Text.ReplaceSkips | examples/browser-mcp/extract-screenshots.py:69 | a prefix in which no occurrence of the pattern starts is copied unchanged by `str.replace` |
| Text.StripHttps | examples/browser-mcp/extract-screenshots.py:69 | removing every `https://` drops an `https://` scheme and keeps an `http://` one |
| Text.StripSchemes | extract-screenshots.py:66 | the two scheme removals together drop an http or https scheme from a remainder without `:` |
| Text.BeforeFirstSpec | examples/browser-mcp/extract-screenshots.py:69 | `split(sep)[0]` is a prefix without `sep`, followed by `sep` when it is shorter than the string |
| Text.KeepFilenameCharsSpec | examples/browser-mcp/extract-screenshots.py:70 | the filter keeps only letters, digits, `.`, `-` and `_`, keeps every one of them, and is no longer than its input |
| Text.KeepFilenameCharsIdentity | examples/browser-mcp/extract-screenshots.py:70 | a string of allowed characters passes the filter unchanged |
| Text.DecimalRoundTrip | extract-screenshots.py:54 | `str(n)` is a non-empty digit string that reads back as `n` |
| Text.DigitsThenSeparator | extract-screenshots.py:71 | a digit run ended by a non-digit is determined by the string it starts |
| Text.ZeroPad2Spec | examples/browser-mcp/extract-screenshots.py:72 | `{n:02d}` is all digits, reads back as `n`, and has exactly two digits below 10 |
| Text.ZeroPad2Injective | examples/browser-mcp/extract-screenshots.py:72 | distinct counters are padded to distinct strings |
| Json.IsScreenshotExactPrefix | examples/browser-mcp/extract-screenshots.py:50-53 | an entry qualifies exactly when its screenshot starts with the 11 characters `data:image/` |
| Json.ScreenshotPositionsLength | extract-screenshots.py:59-63 | there are as many qualifying positions as qualifying entries, each an index of the list |
| Json.ScreenshotPositionsSpec | examples/browser-mcp/extract-screenshots.py:48-54 | the positions strictly increase, each holds a qualifying entry, and every qualifying entry is among them |
| BrowserMcp.InputPath | examples/browser-mcp/extract-screenshots.py:108-111 | the input file is the first argument when there is one, otherwise `test/browser.results` |
| BrowserMcp.WrappedIsInner | examples/browser-mcp/extract-screenshots.py:29-36 | when `contents[0].text` decodes, the results are the decoded document's `recentResults` |
| BrowserMcp.TimeStringOfMissing | examples/browser-mcp/extract-screenshots.py:59-66 | a missing timestamp gives `unknown_time` under any parser that rejects the empty string |
| BrowserMcp.TimeStringSpec | examples/browser-mcp/extract-screenshots.py:62-66 | time_str is `unknown_time` exactly when the timestamp does not parse; otherwise it is a `YYYYMMDD_HHMMSS` stamp; it never holds `/` |
| BrowserMcp.DomainSafe | examples/browser-mcp/extract-screenshots.py:69-70 | the domain has at most 30 characters, all letters, digits, `.`, `-` or `_`, so no `/` and no `:` |
| BrowserMcp.DomainOfCleanHost | examples/browser-mcp/extract-screenshots.py:69-70 | a host of at most 30 allowed characters is kept as it is |
| BrowserMcp.StripHttp | examples/browser-mcp/extract-screenshots.py:69 | removing every `http://` then drops an http scheme and keeps a host without `:` |
| BrowserMcp.HostIsHost | examples/browser-mcp/extract-screenshots.py:69 | for an http, https or scheme-less URL, the host part is the text before the first `/` |
| BrowserMcp.DomainIsHost | examples/browser-mcp/extract-screenshots.py:69-70 | for such a URL with a short clean host, the domain is exactly that host |
| BrowserMcp.DomainIdempotent | examples/browser-mcp/extract-screenshots.py:69-70 | sanitising a domain a second time changes nothing |
| BrowserMcp.PathCounter | examples/browser-mcp/extract-screenshots.py:72 | the padded counter can be read back from the path |
| BrowserMcp.ScreenshotPathInjective | examples/browser-mcp/extract-screenshots.py:72 | distinct counters give distinct paths, whatever the time and domain |
| BrowserMcp.NameStaysInOutputDir | examples/browser-mcp/extract-screenshots.py:72 | the file name holds no `/`, so every file lies directly in `extracted_screenshots` |
| BrowserMcp.RunExtend | examples/browser-mcp/extract-screenshots.py:48 | running one more entry is one more loop step |
| BrowserMcp.RunAbortedStays | examples/browser-mcp/extract-screenshots.py:75-76 | once a write has raised, later entries change nothing |
| BrowserMcp.RunCount | examples/browser-mcp/extract-screenshots.py:41-54 | one attempt per counted entry; the run stops exactly at the first failing write; a completed run counts every qualifying entry |
| BrowserMcp.RunCompletesIffWritesSucceed | examples/browser-mcp/extract-screenshots.py:75-76 | the run completes exactly when every write it owes succeeds |
| BrowserMcp.RunAttempts | examples/browser-mcp/extract-screenshots.py:53-76 | the k-th write goes to the k-th qualifying entry, in input order, with counter k + 1 |
| BrowserMcp.AttemptsCarryPayloads | examples/browser-mcp/extract-screenshots.py:75-76 | every write holds the entry's screenshot string unchanged, which starts with `data:image/` |
| BrowserMcp.RunExtractedEvents | examples/browser-mcp/extract-screenshots.py:48-82 | the report has one line per entry until the first failing write, before whose entry it stops; the k-th qualifying entry within it gets its Extracted line with counter k + 1, path and size |
| BrowserMcp.RunSkipEvents | examples/browser-mcp/extract-screenshots.py:84-90 | each entry without a screenshot before the first failing write gets its line numbered from 1: Navigation exactly when `data.navigated` is true; with no failing write every entry has a line |
| BrowserMcp.RunHealthy | examples/browser-mcp/extract-screenshots.py:48-82 | with healthy writes, the run completes with one write and one Extracted line per qualifying entry, numbered 1..K in input order |
| BrowserMcp.AttemptCounter | examples/browser-mcp/extract-screenshots.py:72 | each path derived for an entry carries its counter |
| BrowserMcp.PathsApart | examples/browser-mcp/extract-screenshots.py:72 | paths derived for different counters differ, whatever the entries |
| BrowserMcp.AttemptPathsDistinctFor | examples/browser-mcp/extract-screenshots.py:72-76 | under a naming rule that separates counters, no two writes share a path |
| BrowserMcp.AttemptPathsDistinct | examples/browser-mcp/extract-screenshots.py:72-76 | no two writes of a run share a path, so no file is overwritten |
| BrowserMcp.PathOfHost | examples/browser-mcp/extract-screenshots.py:69-72 | an entry with an http or https URL and a short clean host is filed under that host |
| BrowserMcp.ExtractScreenshots | examples/browser-mcp/extract-screenshots.py:28-45 | an inner decoding error or an empty result list ends the run before the directory is made or anything is written; otherwise the writes and report are those of the loop over the results |
| BrowserMcp.ExtractAll | examples/browser-mcp/extract-screenshots.py:47-90 | the loop's final counter, writes, report and abort flag are the Run of the whole list |
| BrowserMcp.SingleScreenshotScenario | examples/browser-mcp/extract-screenshots.py:29-36 | a direct document with one screenshot entry yields exactly one write of its payload |
| TopLevel.ParseArguments | extract-screenshots.py:99-111 | the script proceeds exactly when one argument is given, on that file; otherwise it exits with status 1 |
| TopLevel.CleanUrlSafe | extract-screenshots.py:66-68 | clean_url has at most 50 characters and no `/` or `:` |
| TopLevel.CleanUrlIdempotent | extract-screenshots.py:66-68 | rewriting a clean URL again changes nothing |
| TopLevel.CleanUrlOfSchemeAndPath | extract-screenshots.py:66-68 | for an http, https or scheme-less URL without `:`, clean_url drops the scheme and turns each `/` into `_` |
| TopLevel.TimestampPartSpec | extract-screenshots.py:71 | for a non-empty timestamp, timestamp_str is the timestamp with `:` to `-` and `T` to `_`, cut at its first `.`; it holds no `:`, `T` or `.` |
| TopLevel.TimestampPartFallback | extract-screenshots.py:71 | for an empty timestamp, timestamp_str is `screenshot_` and the loop index |
| TopLevel.FileNamesApartWithoutTimestamp | extract-screenshots.py:54-72 | entries without a timestamp at different indices get different file names |
| TopLevel.FilePathInOutputDir | extract-screenshots.py:71-73 | `os.path.join` adds one `/` between `extracted_screenshots` and a file name whose timestamp does not start with `/` |
| TopLevel.FileNameFlat | extract-screenshots.py:54-73 | when neither the timestamp nor the id holds `/`, the file name holds no `/` and ends in `.txt`, so the file lies directly in `extracted_screenshots` |
| TopLevel.RunExtend | extract-screenshots.py:53 | running one more entry is one more loop step |
| TopLevel.RunCount | extract-screenshots.py:53-63 | screenshot_count counts every qualifying entry, failed writes included, with one write and one report line each |
| TopLevel.RunIgnoresFailures | extract-screenshots.py:76-86 | the counter and the writes attempted are the same whichever writes fail |
| TopLevel.RunAttempts | extract-screenshots.py:53-86 | the k-th write goes to the k-th qualifying entry at its own index, and its report line carries counter k + 1 |
| TopLevel.AttemptsCarryPayloads | extract-screenshots.py:76-78 | every write holds the entry's screenshot string unchanged, which starts with `data:image/` |
| TopLevel.ReportMatchesOutcomes | extract-screenshots.py:76-86 | the report says WriteError exactly for the writes that fail |
| TopLevel.ExtractScreenshots | extract-screenshots.py:39-51 | an empty or missing `recentResults` ends the run before the directory is made or anything is written; otherwise the writes and report are those of the loop, with the summary chosen by the count |
| TopLevel.ExtractAll | extract-screenshots.py:53-86 | the loop's final counter, writes and report are the Run of the whole list |
| TopLevel.FailedWriteScenario | extract-screenshots.py:76-86 | when the first of two writes fails, both entries are counted and written, and the report is an error then an Extracted line numbered 2 |

## Left out

- Filesystem effects: `os.path.exists`, opening and reading the input, `os.makedirs` and the file writes. The model starts from a decoded document and returns the list of attempted writes. Whether the directory is created is a flag, and whether each write succeeds is a parameter.
- `json.load` and `json.loads`: the document is given already decoded, and decoding the wrapped text is a parameter. A top-level file that is not JSON is not modelled.
- `datetime.fromisoformat` and `strftime`: a parameter that returns an optional stamp. The parameter is free, so the model does not itself force the empty string to fail to parse, as `fromisoformat('')` does; `BrowserMcp.TimeStringOfMissing` states the result for parsers that reject it.
- `str.isalnum` is restricted to ASCII letters and digits; Unicode letters and digits are not modelled.
- Console text, emoji and the `{:,}` formatting: the report is a list of tagged lines that carry the values printed.
- JSON values of unexpected types. The model has no null or non-string `id`, `url`, `timestamp` or `screenshot`, no null `metadata`, `data` or `contents`, no non-boolean `navigated`, and no result list that is not a list. In the scripts these behave as follows:
  - `extract-screenshots.py` has no handler around its loop (lines 53-86). A null or non-string `url` of a qualifying entry raises `AttributeError` at line 66, and so does a non-string truthy `timestamp` at line 71, a null `metadata` at line 60 or a non-string truthy `screenshot` at line 62. The traceback ends the script: no later entry is processed and no summary is printed. A null `timestamp` raises nothing and takes the `screenshot_{i}` branch. A null or numeric `id` raises nothing either: line 72 formats it as `None` or `42`, where the model, which reads a null as a missing id, writes `result_{i}`.
  - In the browser-mcp script the same `AttributeError`s (a null `url` at line 69, a null `metadata` at line 51, a null `data` at line 87) reach the handler at lines 103-104, which reports them and ends the run. A null `timestamp` raises inside the bare handler at lines 62-66 and gives `unknown_time`. A truthy `navigated` that is not `true` (for instance `1`) prints the Navigation line, which the model's `Option<bool>` can only produce for `true`. A null or numeric `id` is harmless here, as `result_id` is unused.
- The browser-mcp script computes `result_id` (line 57) and never uses it, so the model has no counterpart.
- TopLevel.FileNamesApartWithoutTimestamp: file names are proved distinct only for entries without a timestamp. Two entries with the same timestamp, URL and id get the same name; the model does not capture the second write replacing the first file.
- Both ExtractAll methods are stated over any naming rule. The file-name properties are proved about the scripts' own rules, `PathFor` and `FileName`.
- `sys.exit`: the exit status is part of `ParseArguments`' result, and the usage text is not modelled.
