# sogc-tracker — a Dafny model of the run loop

sogc-tracker reads a list of company names. It looks each name up in the Swiss
commercial registry (Zefix) and keeps the exact case-insensitive match. It
appends the found companies, stamped with the day of the search, to a CSV file.
The names that were not found go into a "remaining" file. A persistent cache
makes a name that was resolved once, found or not, never go to the registry
again.

The model covers the core of one run:

- `Input` covers the parsing expression of `loadCompaniesToCheck`: split on
  `'\n'`, trim every line, drop the empty ones. `JsString` defines the
  JavaScript string operations involved: `trim` with the ECMAScript
  white-space and line-terminator set, `split` on one character (`""` gives
  `[""]`), `join`, and `toLowerCase`.
- `ZefixSearch` is the match resolver `getCantonalExcerpt`. It scans the
  candidates in order and takes the first whose lower-cased name equals the
  lower-cased search term. A candidate whose name cannot be read (`Malformed`)
  ends the scan with `null`, as the `try`/`catch` around the loop body does.
- `Pipeline` is `processCompanies`:
  - The cache object is the class `Cache`, whose `entries` the method
    `ProcessCompanies` updates in place.
  - The method's loop is proved against the specification function `Run`,
    which is defined by recursion over the prefixes of the input.
  - The registry (`getCompanyData`) is a function parameter from a name to an
    optional response.
  - The date is a parameter. Each pause `await delay(...)` is counted in
    `delays`.
- `Output` is the text that `saveResultsToCsv` appends and that
  `saveRemainingCompanies` writes. `CsvReader` is an RFC 4180-style reader of
  one CSV line, used as the partner of the row writer for the round-trip
  lemmas.

A malformed candidate is not skipped. The `catch` at src/zefixSearch.ts:77-80
returns `null` from the whole function. So a malformed candidate met before a
match gives "not found", even when a later candidate matches
(`ZefixSearch.MalformedBeforeMatchGivesNull`).

## Model

| member | source | states |
|---|---|---|
| Pipeline.ProcessCompanies | scr/main.ts:39-92 | The outputs, the queries issued and the new cache equal the specification `Run` of the input from the old cache. Old cache entries are kept with their values. The keys become the old keys plus every input name. The number of pauses equals the number of queries, which equals the number of distinct input names that were not cached before. |
| Pipeline.Cache.constructor | src/types.ts:19-21 | The cache object holds the mapping it was loaded with. |
| Pipeline.Resolve | scr/main.ts:64-75 | A found record carries today's date as `search_date`, and its name matches the queried name ignoring case. |
| Pipeline.RunCache | scr/main.ts:49-86 | The cache only grows. An entry present before the run keeps its value. Every input name becomes a key. A name that was not cached holds the outcome of its own registry query: the stamped record, or `null`. |
| Pipeline.Step | scr/main.ts:50-88 | One turn of the loop. The name becomes a cache key and every earlier entry keeps its value. A name that was not cached gets the outcome of its query. A turn issues one query and one pause exactly when the name was not cached, and never removes an earlier query. It adds exactly one output (a new result or a not-found name), except on a cache hit on a found record, which adds nothing. |
| Pipeline.Run | scr/main.ts:49-89 | After the loop, the number of pauses equals the number of queries, which is at most the number of input names. Every key of the initial cache is still a key. |
| Pipeline.RunQueries | scr/main.ts:51-60 | One pause per query. The queried names are exactly the input names missing from the initial cache, each queried once even when the input repeats it. There are no more new results than queries, and no more outputs than input names. |
| Pipeline.RunQueryNames | scr/main.ts:51-66 | The queried names are exactly the input names missing from the initial cache, with no name queried twice. |
| Pipeline.RunOutputBounds | scr/main.ts:55-83 | There are no more new results than queries, and no more outputs than input names. |
| Pipeline.QueryCount | scr/main.ts:62-88 | The number of registry queries equals the number of distinct input names absent from the initial cache. |
| Pipeline.RunNotFound | scr/main.ts:53-55 | `notFound` lists, in input order and with repetitions, each input name whose final cache entry is `null`. This covers cache hits on `null` as well as fresh misses. |
| Pipeline.NotFoundMembers | scr/main.ts:82-84 | A name is in `notFound` if and only if it is an input name cached as `null` at the end of the run. |
| Pipeline.AbsentInMembers | scr/main.ts:53-55 | A name is selected by the absent filter if and only if it is an input name whose cache entry is `null`. |
| Pipeline.RunNewResults | scr/main.ts:72-75 | `newResults` are the records cached for this run's queries that resolved, in query order. A cache hit on a found record adds nothing. |
| Pipeline.RunQueriesInInputOrder | scr/main.ts:49-66 | The registry is queried in input order for each input name missing from the initial cache, at its first occurrence only. |
| Pipeline.NewResultsInInputOrder | scr/main.ts:49-75 | `newResults` are the found records of the fresh input names, in input order. |
| Pipeline.NewResultsStamped | scr/main.ts:73 | Every new result carries the run's date. |
| Pipeline.AllCachedMeansNoQueries | scr/main.ts:51-60 | When every input name is already cached, there are no registry queries, no pauses and no new results. The cache is unchanged, and `notFound` is the input names cached as `null`. |
| Pipeline.SecondRunIsQuiet | scr/main.ts:49-60 | Running the same names again on the cache left by a run issues no query and finds nothing new. The cache stays as it was and the not-found list is the same, whatever the registry answers and whatever the date. |
| Pipeline.TwoNameRun | scr/main.ts:49-89 | Two fresh names, the first found and the second not, give one new result, one not-found name, two queries, two pauses, and both outcomes cached. |
| ZefixSearch.Project | src/zefixSearch.ts:71-75 | The projected record has no search date. |
| ZefixSearch.NamesMatch | src/zefixSearch.ts:69-70 | A name always matches itself, and two names that match, under ASCII lowering, have the same length. |
| ZefixSearch.ScanCandidates | src/zefixSearch.ts:65-83 | A record returned by the scan has a name that matches the search term ignoring case, and has no date. |
| ZefixSearch.GetCantonalExcerpt | src/zefixSearch.ts:60-84 | No response or no `list` gives `null`. A record returned has no date and a name that matches the search term ignoring case. |
| ZefixSearch.ScanFindsFirstMatch | src/zefixSearch.ts:65-83 | The scan returns a record if and only if some position holds a matching candidate with only readable, non-matching candidates before it. The record is then that candidate's projection. |
| ZefixSearch.ExcerptIsMatchingCandidate | src/zefixSearch.ts:60-84 | A returned record comes from a response with a list. One of the list's candidates has exactly its name, uid and excerpt link. Its name matches the search term, and it has no date. |
| ZefixSearch.MalformedBeforeMatchGivesNull | src/zefixSearch.ts:66-80 | A malformed candidate placed before any match makes the result `null`, even when a match comes later. |
| ZefixSearch.NoMatchGivesNull | src/zefixSearch.ts:83 | A list without a matching candidate gives `null`. |
| ZefixSearch.WellFormedListGivesFirstMatch | src/zefixSearch.ts:65-75 | In a list of readable candidates, the result is the first matching candidate's name, uid and link, with no date. |
| ZefixSearch.MatchIgnoresCase | src/zefixSearch.ts:69-70 | Two names match if and only if they have the same length and agree character by character after lower-casing. |
| ZefixSearch.DifferentLengthNeverMatches | src/zefixSearch.ts:69-70 | Under ASCII lowering, a candidate name of another length never matches, so names that merely contain or extend the search term are never selected. |
| Input.TrimAll | scr/main.ts:22 | Every line is replaced by its trimmed text, and the count is kept. |
| Input.DropEmpty | scr/main.ts:23 | The filtered list is no longer than the input and holds no empty line. |
| Input.DropEmptyKeeps | scr/main.ts:23 | A line survives the filter if and only if it is a non-empty line of the input. |
| Input.ParseCompanies | scr/main.ts:19-23 | No parsed name is empty. |
| Input.ParsedNamesAreTrimmed | scr/main.ts:20-23 | Every parsed name is non-empty, contains no newline, and is unchanged by another trim. |
| Input.TrimAllAppend | scr/main.ts:22 | Trimming the lines of two blocks together is trimming each block. |
| Input.DropEmptyAppend | scr/main.ts:23 | Filtering distributes over concatenation. |
| Input.ParseOneLine | scr/main.ts:20-23 | A single line gives its trimmed text, or nothing when that is blank. |
| Input.ParseConcatenation | scr/main.ts:20-23 | Two blocks of text joined by a newline give the names of the first block and then the names of the second. |
| Input.ParseLines | scr/main.ts:20-23 | Lines joined by newlines give each line trimmed, blank ones dropped, in order. |
| Input.TrimDropsCarriageReturn | scr/main.ts:22 | A trailing carriage return is removed by the trim. |
| Input.CarriageReturnTrimmed | scr/main.ts:20-23 | A name ending with a Windows line ending `\r\n` is read as the bare name. |
| JsString.IsWhiteSpace | scr/main.ts:22 | The characters `trim` removes: the ECMAScript WhiteSpace and LineTerminator code points. |
| JsString.PrintableAsciiIsNotWhiteSpace | scr/main.ts:22 | No printable ASCII character is white space, so `trim` never removes a letter, digit or punctuation mark. |
| JsString.TrimStart | scr/main.ts:22 | The result is a suffix of the input; all removed characters are white space; the result does not start with white space. |
| JsString.TrimEnd | scr/main.ts:22 | The result is a prefix of the input; all removed characters are white space; the result does not end with white space. |
| JsString.Trim | scr/main.ts:22 | The result is no longer than the input, and neither starts nor ends with white space. |
| JsString.TrimIsSlice | scr/main.ts:22 | The trim is a contiguous slice of its input, and only white space lies outside it. |
| JsString.TrimChars | scr/main.ts:22 | The trim adds no character. |
| JsString.TrimIdempotent | scr/main.ts:22 | Trimming twice is trimming once. |
| JsString.TrimEmpty | scr/main.ts:22-23 | A line trims to empty, and is dropped, if and only if it is all white space. |
| JsString.Join | scr/main.ts:118-143 | `join` of no parts is the empty string, and a non-empty join starts with its first part. |
| JsString.Split | scr/main.ts:21 | At least one piece, and no piece contains the separator. |
| JsString.SplitJoin | scr/main.ts:21 | Joining the pieces of a split with the separator gives back the text. |
| JsString.JoinSplit | scr/main.ts:143 | Splitting a join of separator-free pieces gives back the pieces. |
| JsString.SplitWithoutSeparator | scr/main.ts:21 | A text without the separator splits into itself. |
| JsString.SplitAppend | scr/main.ts:21 | Splitting `a + sep + b` gives the pieces of `a` followed by the pieces of `b`. |
| JsString.JoinPrependToFirst | scr/main.ts:126 | Prefixing the first part prefixes the join. |
| JsString.JoinAvoids | scr/main.ts:122 | A character found in no part and not in the separator is not in the join. |
| JsString.LowerChar | src/zefixSearch.ts:70 | The result is never an upper-case ASCII letter. It is a lower-case letter exactly when the input is an ASCII letter, and every other character is unchanged. |
| JsString.Lower | src/zefixSearch.ts:70 | Lower-casing keeps the length and maps each character by itself. |
| Output.HeaderIsPlain | scr/main.ts:109 | The header line `CsvHeader`, the column names `Headers` joined by commas, is non-empty and holds no newline and no double quote. |
| Output.DoubleQuotes | scr/main.ts:115 | Escaping never shortens the name and keeps every character other than the double quote. |
| Output.QuoteName | scr/main.ts:115 | The name column starts and ends with a double quote, and contains a newline if and only if the name does. |
| Output.DateField | scr/main.ts:113 | The date column is empty exactly when the date is missing or empty, and otherwise holds only the date's characters. |
| Output.CsvRow | scr/main.ts:111-119 | A row always holds a double quote, and a record without newlines gives a one-line row. |
| Output.CsvRows | scr/main.ts:111-119 | One row per result, in order. |
| Output.ResultsFileContent | scr/main.ts:94-127 | Nothing is written if and only if there are no new results. |
| Output.RemainingFileContent | scr/main.ts:143 | The not-found file always ends with a newline. |
| Output.RowsAreLines | scr/main.ts:111-119 | Records without newlines give one-line rows. |
| Output.HeaderAndRowsSplit | scr/main.ts:121-126 | The header and the rows joined by newlines split back into the header and the rows. |
| Output.NewFileLines | scr/main.ts:121-127 | A new results file is the header line, one line per result, and a final empty line. |
| Output.AppendLines | scr/main.ts:125-127 | An append is an empty first line followed by one line per result, with no header. |
| Output.CreateThenAppendLines | scr/main.ts:121-127 | Creating the file and appending later gives the header, the first run's rows, one empty line, then the second run's rows. |
| Output.HeaderOnce | scr/main.ts:121-123 | After a creation and a later append the header occurs exactly once among the lines. |
| Output.RemainingLines | scr/main.ts:143 | The not-found file is the names, one per line, and a final newline; with no names it is a single newline. A non-empty line occurs in it if and only if it is one of this run's names. |
| CsvReader.ReadQuoted | scr/main.ts:115 | A quoted field that reads successfully consumes at least one character. |
| CsvReader.ReadPlain | scr/main.ts:113-117 | A plain field is the longest comma-free prefix, and the rest is empty or starts at the next comma. |
| CsvReader.ReadQuotedEscaped | scr/main.ts:115 | Reading the escaped name back undoes the quote doubling. |
| CsvReader.ReadPlainField | scr/main.ts:113-117 | A comma-free column reads back as itself. |
| CsvReader.ReadPlainThenMore | scr/main.ts:118 | A plain column followed by a comma reads as that column and then the rest of the record. |
| CsvReader.ReadPlainLast | scr/main.ts:117-118 | A plain last column reads as a one-field record. |
| CsvReader.ReadQuotedThenMore | scr/main.ts:115 | The quoted name column followed by a comma reads back as the name and then the rest of the record. |
| CsvReader.ColumnsRoundTrip | scr/main.ts:112-118 | Four columns joined by commas, with the second one quoted, read back as the four original values. |
| CsvReader.RowRoundTrip | scr/main.ts:111-119 | A row, read back by a CSV reader, gives the record's date, name, uid and link. The name is recovered even when it contains commas or quotes. |
| CsvReader.PlainJoinRoundTrip | scr/main.ts:122 | Unquoted fields without commas or quotes, joined by commas, read back as the fields. |
| CsvReader.HeaderRoundTrip | scr/main.ts:109-122 | The header line `CsvHeader` reads back as the four column names `Headers`. |
| CsvReader.NewFileRoundTrip | scr/main.ts:109-127 | A new results file has two more lines than results. Its first line reads as the column names, and line `i+1` reads as the fields of result `i`. |

## Left out

- `getCompanyData` (src/zefixSearch.ts:12-58): the HTTP request, the headers, the payload and the status handling are not modelled. The registry is a function parameter, and every failure (404, other status, transport error) is its `None`.
- The JSON shape of a candidate is reduced to `Candidate(name, uid, cantonalExcerptWeb)` or `Malformed`. A `null` or `undefined` entry throws at `company.name` (src/zefixSearch.ts:67). A name that is missing or is not a string throws at `toLowerCase` (line 70). Both are `Malformed`. A candidate whose name is readable but whose uid or link is missing is not modelled. The source would copy `undefined` into the record.
- A `list` field that is present but not iterable (an object, `true`, or a non-zero number) passes the test at src/zefixSearch.ts:61. The `for...of` at line 65 then throws outside the `try`, so `getCantonalExcerpt` throws and `processCompanies` rejects. The `.catch` at scr/main.ts:180 then ends the run before the CSV, the cache and the not-found file are saved. The model's `list` is either absent or a sequence, so it does not capture this abort of the whole run.
- `JsString.Lower`: lowers ASCII letters only. JavaScript's `toLowerCase` follows full Unicode case mapping, which can change length.
- `JsString`: a Dafny `char` is a Unicode scalar value, whereas JavaScript strings are UTF-16 code units. A character outside the Basic Multilingual Plane is one `char` in the model but two code units in JavaScript, and a lone surrogate in a registry name cannot be represented at all.
- `ZefixSearch.DifferentLengthNeverMatches`: holds under ASCII lowering only. Under JavaScript's `toLowerCase`, "İ" (one code unit) lowers to "i̇" (two code units), so names of different lengths can match.
- The cache file (`scr/cacheManager.ts`): loading and saving JSON and its error handling are left out. The cache is the in-memory mapping before and after a run.
- The logger (`scr/logger.ts`) and every logging call are left out; they only produce messages.
- File system calls are left out: `existsSync`, `mkdirSync`, `readFileSync`, `appendFileSync`, `writeFileSync`, and the `try`/`catch` around them. Whether the results file exists is a parameter of `Output.ResultsFileContent`. A missing input file makes `loadCompaniesToCheck` return `[]`, and that is not modelled.
- `main` (scr/main.ts:157-177) is not modelled, since it is only the sequence of the calls above. This includes its early return on an empty input list.
- Time is not modelled: `new Date().toISOString()` is the `today` parameter, `delay(API_REQUEST_DELAY)` with 5000 ms is one count in `delays`, and `async`/`await` is sequential execution.
- `Pipeline.Cache`: an input name such as `__proto__` interacts with JavaScript's prototype chain in `hasOwnProperty` and in the assignment. The model treats every name as an ordinary key.
- The record object stamped at scr/main.ts:73 is shared by `newResults` and the cache. Nothing mutates it afterwards, so the model uses values.
