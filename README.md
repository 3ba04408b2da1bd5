# ISBN resolver — a verified model

This project models the core of a small console tool that turns a file of ISBNs into a CSV
table of book data. The tool has four steps:

1. **Input parsing** (`InputParser`). Every line of the input file becomes one or more
   entries. Each entry is a row number and a trimmed ISBN.
2. **Cached retrieval** (`Retrieval`). An ISBN is answered from a process-lifetime cache
   when it is there. Otherwise it is looked up on the Open Library books service. A
   successful answer is normalised and stored in the cache.
3. **Aggregation** (`Retrieval.Resolver.RetrieveAll`, `Retrieval.Aggregate`). There is one
   retrieval per entry, in entry order. Every result is appended, failures included.
4. **CSV rendering** (`CsvGenerator`). The output is a fixed header line, then one line per
   record.

The supporting modules are:

- `Text`: the .NET string operations the tool relies on, with their properties.
  These are `Trim`, `Split`, `Join` and integer rendering.
- `Books`: the data model.
- `Pipeline`: the whole run, and the finding below.

The tool's stateful parts are imperative Dafny:

- `Retrieval.Resolver` holds the cache as a `map` field. Its methods change that field.
- `InputParser.ReadInputFile` and `CsvGenerator.GenerateCsv` are loops that build their
  results step by step. The inner loop of `ReadInputFile`, over the pieces of a comma line,
  is the helper method `InputParser.AddPieces`. The body of the aggregation loop is the
  helper method `Retrieval.Resolver.RetrieveNext`.
- Each of these is proved against a specification function: `ParseLines`, `Retrieve`,
  `Aggregate` and `Csv`. The lemmas state the tool's promises about those functions.

The HTTP request and the JSON decoding are an oracle, `Lookup = string -> Option<RawBook>`.
`None` means the service answered with a non-success status. `Some(raw)` is the decoded
record: title, optional subtitle, author names, optional page count and publish date.
The class keeps a ghost log, `requests`, of the ISBNs it sent to the network. This log is
how the model states that a cache hit makes no network call.

The model follows what the code does, including where that differs from what a reader of the tool would expect (for instance, that empty pieces are dropped and that failed identifiers are skipped):

- A line with commas yields one entry per piece, empty pieces included.
- A failed lookup still yields a record, and that record is appended to the results.
  It has only the ISBN set. The row number is 0, the retrieval type is the enum's
  default value 0 (`Unset` here), and the author list is null.
- The retrieval type is rendered by its enum name (`Server`, `Cache`). The unnamed
  default renders as `0`.

## Model

| member | source | states |
|---|---|---|
| `Wrappers.GetOr` | ISBN/Program.cs:154-160 | the `??` operator: the value when present, the default otherwise |
| `Books.SameData` | ISBN/Program.cs:180-185 | two records carry the same ISBN, title, subtitle, authors, page count and publish date, whatever their row and origin |
| `Text.IsWhiteSpace` | ISBN/Program.cs:111-123 | `Char.IsWhiteSpace`: the control characters U+0009 to U+000D, U+0085, and the Unicode space, line and paragraph separators, which `Trim` strips |
| `Text.Trim` | ISBN/Program.cs:111 | `String.Trim()`: the result is no longer than the input, and neither end of it is white space |
| `Text.TrimSlice` | ISBN/Program.cs:111 | what `Trim` keeps is one contiguous slice of the input, and every character before and after that slice is white space |
| `Text.SkipWhiteSpace` | ISBN/Program.cs:111 | the scan from the front stops at the first character that is not white space, or at the end of the text |
| `Text.SkipWhiteSpacePassesWhite` | ISBN/Program.cs:111 | every character the front scan passes over is white space |
| `Text.BackOverWhiteSpace` | ISBN/Program.cs:111 | the scan from the back stops after the last character that is not white space, never going past the front scan |
| `Text.BackOverWhiteSpacePassesWhite` | ISBN/Program.cs:111 | every character the back scan passes over is white space |
| `Text.TrimOfTrimmed` | ISBN/Program.cs:111 | a string with no white space at either end is its own trim |
| `Text.TrimIdempotent` | ISBN/Program.cs:111 | trimming twice is trimming once |
| `Text.Count` | ISBN/Program.cs:102-104 | the number of occurrences of a character in a text |
| `Text.CountZero` | ISBN/Program.cs:102 | a string has no comma exactly when its comma count is zero, so `Contains(',')` agrees with the count |
| `Text.Split` | ISBN/Program.cs:104 | `Split(',')` yields one more piece than there are separators, and no piece holds a separator; empty pieces are kept |
| `Text.SplitSnoc` | ISBN/Program.cs:104 | `Split` read left to right: a separator starts a new empty piece and any other character extends the last piece |
| `Text.JoinSplit` | ISBN/Program.cs:104 | joining the split pieces with the separator gives back the original string |
| `Text.SplitJoin` | ISBN/Program.cs:104 | splitting the join of separator-free parts gives back the parts |
| `Text.SplitNoSep` | ISBN/Program.cs:102-104 | a line without a comma splits into itself alone |
| `Text.SplitAppendNoSep` | ISBN/Program.cs:104 | appending separator-free text extends only the last piece of a split |
| `Text.Join` | ISBN/Program.cs:39 | `String.Join`: no parts give empty text, one part gives that part, and more parts are joined in order with the separator between neighbours |
| `Text.JoinSnoc` | ISBN/Program.cs:39 | `String.Join` with one more part adds the separator and that part at the end |
| `Text.JoinExtendLast` | ISBN/Program.cs:39 | text appended to the last part of a join is appended to the joined string |
| `Text.JoinShort` | ISBN/Program.cs:39 | with fewer than two parts, `String.Join` does not depend on the separator |
| `Text.JoinAvoids` | ISBN/Program.cs:39-41 | a character that is neither in the separator nor in any part is not in the joined string |
| `Text.DigitChar` | ISBN/Program.cs:41 | a digit below ten renders as the decimal digit character of that value |
| `Text.NatToString` | ISBN/Program.cs:41 | a non-negative row number renders as at least one character; the first is a decimal digit, and it is `0` only for the number 0, so there are no leading zeros |
| `Text.NatToStringDigits` | ISBN/Program.cs:41 | every character of a rendered non-negative number is a decimal digit |
| `Text.DigitsValue` | ISBN/Program.cs:41 | the number a text of decimal digits denotes, most significant digit first |
| `Text.NatToStringRoundTrip` | ISBN/Program.cs:41 | the rendered digits read back to the number |
| `Text.IntToString` | ISBN/Program.cs:41 | `int` rendering: the text is non-empty and starts with a minus sign exactly when the value is negative |
| `Text.IntToStringDigits` | ISBN/Program.cs:41 | after the optional sign there is at least one character, all decimal digits, and they read back to the magnitude |
| `Text.IntToStringPlain` | ISBN/Program.cs:41 | the rendered row number contains no comma, quote or line break |
| `InputParser.ParseLine` | ISBN/Program.cs:102-127 | the entries of one line: with a comma, one entry per split piece, trimmed; otherwise one entry for the whole line, trimmed; all on the line's row |
| `InputParser.ParseLines` | ISBN/Program.cs:99-130 | the entries of all lines in order, line k (counting from 1) tagged with row number k |
| `InputParser.PieceCount` | ISBN/Program.cs:99-130 | the number of comma-separated pieces over all lines: one more than its comma count per line |
| `InputParser.Tagged` | ISBN/Program.cs:104-115 | one entry per comma piece, in order |
| `InputParser.TaggedAt` | ISBN/Program.cs:106-115 | entry i of a comma line is piece i, trimmed, on the line's row |
| `InputParser.TaggedSnoc` | ISBN/Program.cs:106-114 | one more piece appends exactly its trimmed entry, on the same row |
| `InputParser.ParseLinePieces` | ISBN/Program.cs:102-127 | both branches of the line parser agree: a line yields the trimmed comma-pieces, so n commas give n + 1 entries and a comma-free line gives exactly `Trim(line)`, possibly empty |
| `InputParser.ParseLineRow` | ISBN/Program.cs:108-126 | every entry of a line carries that line's row number, and every line yields at least one entry |
| `InputParser.ParseLinesCount` | ISBN/Program.cs:99-128 | the number of entries is the number of comma-separated pieces over all lines |
| `InputParser.ParseLinesSnoc` | ISBN/Program.cs:99-128 | one more line appends exactly that line's entries, numbered with the next row |
| `InputParser.ParseLinesBounds` | ISBN/Program.cs:99-128 | every row number is a line number; the first entry is on row 1 and the last on the last line |
| `InputParser.ParseLinesOrdered` | ISBN/Program.cs:99-128 | row numbers never decrease along the entries and go up by at most one between neighbours |
| `InputParser.ParseLinesRows` | ISBN/Program.cs:99-128 | the counts, bounds and ordering of the three lemmas above, together |
| `InputParser.ParseLinesGroup` | ISBN/Program.cs:99-128 | the entries carrying row number k are exactly those the k-th line yields, in order |
| `InputParser.ParseLinesNoCommas` | ISBN/Program.cs:118-128 | comma-free lines yield one entry each: line k gives `Entry(k, Trim(line))` |
| `InputParser.ParseTwoOnALine` | ISBN/Program.cs:102-116 | a line `a,b` yields entries for `a` and `b`, both on the same row |
| `InputParser.ParseTwoLines` | ISBN/Program.cs:91-135 | for trimmed, comma-free ISBNs `a`, `b` and `c`, the lines `a,b` and `c` yield `(1,a)`, `(1,b)`, `(2,c)`, in that order |
| `InputParser.IsbnTrimmed` | ISBN/Program.cs:111-123 | every parsed ISBN is already trimmed |
| `InputParser.ParseLinesTrimmed` | ISBN/Program.cs:111-123 | every ISBN in the parse result equals its own trim |
| `InputParser.ReadInputFile` | ISBN/Program.cs:91-135 | the nested reading loop with its row counter computes `ParseLines`; one entry per piece, rows within the line numbers, every ISBN trimmed |
| `InputParser.AddPieces` | ISBN/Program.cs:104-115 | the inner loop over the pieces of a comma line appends each piece, trimmed and on the current row, in order, and nothing else |
| `InputParser.WithRow` | ISBN/Program.cs:114-126 | the entries with a given row number, in order |
| `InputParser.WithRowAppend` | ISBN/Program.cs:114 | selecting the entries of one row distributes over appending entries |
| `InputParser.WithRowAll` | ISBN/Program.cs:114 | selecting a row keeps nothing when no entry has it and everything when all do |
| `InputParser.WithRowOfLine` | ISBN/Program.cs:102-127 | selecting a row from one line's entries keeps all of them or none |
| `Retrieval.AuthorNames` | ISBN/Program.cs:155-159 | the `name` of each entry of the remote record's `authors` array, in the service's order |
| `Retrieval.Normalise` | ISBN/Program.cs:152-163 | the record of a successful fetch: the row, origin `Server`, the ISBN, the title, the subtitle or `N/A`, the author names, the page count or `N/A`, and the publish date |
| `Retrieval.Failed` | ISBN/Program.cs:139-140 | the record of a failed fetch: a fresh record with only the ISBN set |
| `Retrieval.FromCache` | ISBN/Program.cs:175-189 | the record of a cache hit: the cached ISBN, title, subtitle, authors, page count and date, with the current row and origin `Cache` |
| `Retrieval.CacheValid` | ISBN/Program.cs:50 | what the cache holds: every entry is a `Server` record with an author list, stored under its own ISBN |
| `Retrieval.Extends` | ISBN/Program.cs:202-205 | one cache holds every entry of another, unchanged |
| `Retrieval.Retrieve` | ISBN/Program.cs:137-193 | one retrieval: a hit gives `FromCache` and leaves the cache alone; a miss the service refuses gives `Failed` and leaves the cache alone; a successful miss gives `Normalise` and stores it under the ISBN |
| `Retrieval.HitServedFromCache` | ISBN/Program.cs:172-190 | on a hit the result has the cached ISBN, title, subtitle, authors, pages and date, the current row and origin `Cache`; the cache is unchanged and the network's answer plays no part |
| `Retrieval.MissStoresFetched` | ISBN/Program.cs:144-166 | on a successful miss the result has origin `Server` and the current row; subtitle and page count are the fetched value or `N/A`; the authors are the fetched names in order; the cache maps the ISBN to exactly this record |
| `Retrieval.MissFailureLeavesCache` | ISBN/Program.cs:139-170 | on a failed miss the cache is unchanged and the record is the blank record with only its ISBN set: row 0, no origin, null authors, and empty title, subtitle, page count and date |
| `Retrieval.RetrieveInvariants` | ISBN/Program.cs:137-205 | one retrieval only adds the requested key and never replaces an entry; it keeps every cached record a `Server` record under its own ISBN; the record is for the requested ISBN; it fails exactly when the ISBN was uncached and the network refused |
| `Retrieval.Aggregate` | ISBN/Program.cs:63-67 | the aggregation loop yields exactly one record per entry |
| `Retrieval.AggregateSnoc` | ISBN/Program.cs:63-67 | one more entry adds one retrieval, made against the cache the earlier entries left |
| `Retrieval.AggregateStep` | ISBN/Program.cs:63-67 | one loop step extends the run over a prefix of the entries to the next prefix |
| `Retrieval.AggregateAt` | ISBN/Program.cs:63-67 | one record per entry, in entry order: record i is what entry i's retrieval returns against the cache the first i entries left |
| `Retrieval.AggregateGrowsCache` | ISBN/Program.cs:142-205 | over a whole run the cache only gains entries and stays valid |
| `Retrieval.AggregatePrefixGrows` | ISBN/Program.cs:142-205 | the cache after a longer prefix of the entries extends the cache after a shorter one |
| `Retrieval.AggregateKeys` | ISBN/Program.cs:165 | after a run the cache holds only its initial keys and ISBNs of the entries |
| `Retrieval.RecordOfEntry` | ISBN/Program.cs:63-67 | every record is for its entry's ISBN; a successful record has its entry's row; a record is a failure exactly when its authors are null, and only when the network refused |
| `Retrieval.FirstSightingFetched` | ISBN/Program.cs:144-170 | an ISBN not seen before in the run is fetched: a `Server` record if the network answers, a failure if not |
| `Retrieval.SecondFetchFromCache` | ISBN/Program.cs:142-189 | after one successful lookup of an ISBN, every later entry with it is served from the cache with the same data and its own row |
| `Retrieval.FirstFetchCanonical` | ISBN/Program.cs:165 | the first successful fetch of an ISBN stays its cached record to the end of the run |
| `Retrieval.RequestedIsbns` | ISBN/Program.cs:146 | the ISBNs of the records not served from the cache, in order: the requests the loop sends |
| `Retrieval.RequestedSnoc` | ISBN/Program.cs:146 | one more record adds its ISBN to the network requests exactly when it was not served from the cache |
| `Retrieval.RequestLogStep` | ISBN/Program.cs:63-67 | when one more record is appended, a log that held the initial requests followed by the records' requests still does, including that record's request |
| `Retrieval.Resolver.Valid` | ISBN/Program.cs:50 | the cache field satisfies `CacheValid` |
| `Retrieval.Resolver.constructor` | ISBN/Program.cs:50 | the cache starts empty and valid, and no request has been sent |
| `Retrieval.Resolver.CheckCache` | ISBN/Program.cs:196-199 | the answer is whether the ISBN is a key of the cache |
| `Retrieval.Resolver.StoreInCache` | ISBN/Program.cs:202-205 | the cache afterwards maps the ISBN to the given record and is otherwise unchanged |
| `Retrieval.Resolver.RetrieveBookData` | ISBN/Program.cs:137-193 | the field-by-field fill and the authors loop compute `Retrieve`; the cache is kept valid and only extended; exactly a miss sends one request; the origin is `Cache` exactly on a hit |
| `Retrieval.Resolver.RetrieveNext` | ISBN/Program.cs:65-66 | one pass of the loop: retrieving entry i and appending its record extends the run over the first i entries to the first i + 1, cache and request log included |
| `Retrieval.Resolver.RetrieveAll` | ISBN/Program.cs:57-67 | the loop over the entries computes `Aggregate` from the starting cache, failures included; the network sees exactly the ISBNs of the records not served from the cache, in order |
| `CsvGenerator.TypeName` | ISBN/Program.cs:41 | the retrieval type rendered by its enum name, `Server` or `Cache`; the unnamed default value renders as `0` |
| `CsvGenerator.Quoted` | ISBN/Program.cs:41 | a field between double quotes, with nothing inside escaped |
| `CsvGenerator.Fields` | ISBN/Program.cs:41 | the eight interpolated fields of a record, in column order: row number, type name, ISBN, title, subtitle, quoted authors text, page count and quoted publish date |
| `CsvGenerator.RecordLine` | ISBN/Program.cs:41 | a record's CSV line: its fields joined with commas |
| `CsvGenerator.Renderable` | ISBN/Program.cs:39 | every record has an author list, so reading `Authors.Count` does not fail |
| `CsvGenerator.Terminated` | ISBN/Program.cs:42 | `AppendLine` applied in order: each line followed by a line break |
| `CsvGenerator.AuthorsText` | ISBN/Program.cs:39 | the conditional join (`;` for several authors, `""` otherwise) is the `;`-join of the list for every length |
| `CsvGenerator.AuthorsExamples` | ISBN/Program.cs:39 | no authors give an empty text, one gives `A`, two give `A;B` |
| `CsvGenerator.Csv` | ISBN/Program.cs:37-43 | the renderer produces no text exactly when some record has a null author list |
| `CsvGenerator.GenerateCsv` | ISBN/Program.cs:30-46 | the `StringBuilder` loop computes `Csv`: the header line, then each record's line in list order, or nothing if a record has null authors |
| `CsvGenerator.Lines` | ISBN/Program.cs:37-43 | one rendered line per record |
| `CsvGenerator.LinesSnoc` | ISBN/Program.cs:37-43 | one more record adds its line at the end |
| `CsvGenerator.LinesAt` | ISBN/Program.cs:41 | line i is the line of record i |
| `CsvGenerator.TerminatedSnoc` | ISBN/Program.cs:42 | appending a line and a line break extends the text by one terminated line |
| `CsvGenerator.JoinPrefix` | ISBN/Program.cs:41 | joining a prefix one part longer adds the separator and that part |
| `CsvGenerator.Join8` | ISBN/Program.cs:41 | the interpolated row is the comma-join of its eight fields |
| `CsvGenerator.HeaderColumns` | ISBN/Program.cs:35 | splitting the header line on commas gives exactly the eight column names, in order |
| `CsvGenerator.HeaderIsJoin` | ISBN/Program.cs:35 | the header line is the comma-join of the eight column names |
| `CsvGenerator.ColumnsPlain` | ISBN/Program.cs:35 | no column name holds a comma or a line break |
| `CsvGenerator.HeaderPlain` | ISBN/Program.cs:35 | the header line holds no line break |
| `CsvGenerator.RecordFields` | ISBN/Program.cs:41 | when no text field and no author name holds a comma, splitting a record line on commas gives back its eight fields, as many as the header has columns |
| `CsvGenerator.TerminatedJoin` | ISBN/Program.cs:35-43 | the header and the terminated lines form the line-break join of the header, the lines and a final empty text |
| `CsvGenerator.SplitTerminated` | ISBN/Program.cs:35-43 | splitting that text at line breaks gives back the header and the lines |
| `CsvGenerator.FieldsAvoid` | ISBN/Program.cs:41 | a character occurs in none of the record's unescaped text fields and none of its author names |
| `CsvGenerator.RecordLineNoBreak` | ISBN/Program.cs:41 | a record whose fields and author names hold no line break renders as a line without one |
| `CsvGenerator.LinesNoBreak` | ISBN/Program.cs:37-43 | no rendered line holds a line break when no record's fields do |
| `CsvGenerator.CsvLines` | ISBN/Program.cs:35-45 | when every record has authors and no field holds a line break, rendering succeeds with the header line followed by the terminated record lines, and splitting that text at line breaks gives the header, each record's line in list order, then the empty text after the final break |
| `Pipeline.Records` | ISBN/Program.cs:57-67 | the records of a whole run: one retrieval per parsed entry, in order, from an empty cache, failures included |
| `Pipeline.RunAsWritten` | ISBN/Program.cs:57-83 | the run as written: every record goes to the renderer, so the output is `Csv` of all the records |
| `Pipeline.FailedLookupAbortsCsv` | ISBN/Program.cs:39 | as written, one failed lookup anywhere in the run means no CSV is produced |
| `Pipeline.FailedLookupExample` | ISBN/Program.cs:63-67 | one line `0000000000` whose lookup is refused: the as-written run produces no CSV |
| `Pipeline.Successful` | ISBN/Program.cs:63-67 | the kept records are at most as many as all records, and every one is a successful record of the run; the other direction is `SuccessfulKeeps` and `SuccessfulComplete` |
| `Pipeline.SuccessfulPrefix` | ISBN/Program.cs:63-67 | filtering a prefix of the records gives a prefix of the filtered records |
| `Pipeline.SuccessfulKeeps` | ISBN/Program.cs:63-67 | a successful record extends the records kept from the entries before it by itself alone, at the position given by their number; with `SuccessfulDrops` this fixes the filter: each successful record is kept exactly once, in order, and nothing else is kept |
| `Pipeline.SuccessfulComplete` | ISBN/Program.cs:63-67 | every successful record is among the kept records |
| `Pipeline.SuccessfulDrops` | ISBN/Program.cs:63-67 | a failed record adds nothing to the kept records |
| `Pipeline.SuccessfulAll` | ISBN/Program.cs:63-67 | with no failures nothing is dropped |
| `Pipeline.SuccessfulRenderable` | ISBN/Program.cs:39 | every kept record has an author list, so rendering cannot fail |
| `Pipeline.SuccessfulHaveAuthors` | ISBN/Program.cs:39 | when every successful record has an author list, so does every kept record |
| `Pipeline.CorrectedCsv` | ISBN/Program.cs:57-83 | the corrected run always produces CSV text, and that text starts with the header line |
| `Pipeline.RunRendersKept` | ISBN/Program.cs:57-83 | the corrected run renders the header line and then one line per successful record, in entry order |
| `Pipeline.RunAgreesWithoutFailures` | ISBN/Program.cs:57-83 | when no lookup fails, the corrected run renders exactly what the code as written renders |
| `Pipeline.SuccessfulOfThree` | ISBN/Program.cs:63-67 | of three records whose middle one failed, the first and the last are kept |
| `Pipeline.ThreeFetches` | ISBN/Program.cs:63-67 | three distinct ISBNs whose middle lookup fails: records 1 and 3 are `Server` records with their entries' rows and ISBNs, and record 2 fails |
| `Pipeline.OneFailureAmongThree` | ISBN/Program.cs:63-67 | three single-ISBN lines whose middle lookup fails: the corrected run keeps the records of rows 1 and 3 only |

## Findings

| source | as written | input that shows it | evidently intended | confidence | as-written member | corrected member |
|---|---|---|---|---|---|---|
| ISBN/Program.cs:39 | A failed lookup returns a record whose `Authors` is null, and `Main` appends it (lines 65-66). `GenerateCsv` then reads `bookData.Authors.Count`, which throws, so no CSV is written for the whole run. | a single input line `0000000000` for which the service answers with an error status | the failed ISBN is reported and skipped, and the CSV is written for the other records | medium, not executed | `Pipeline.FailedLookupAbortsCsv` | `Pipeline.CorrectedCsv` |

## Left out

- The console prompts, the y/n download question and the messages printed on the console
  are user interface. This includes the error line for a failed ISBN.
- Reading the input file is left out. The model takes the file's lines as a sequence.
  The unused `StreamReader` is left out too.
- Writing the CSV to the hard-coded download path is left out. The model returns the text.
- `HttpClient`, async/await and the dynamic JSON decoding are replaced by the `Lookup`
  oracle. The oracle is a fixed function of the ISBN. A service that answers the same
  ISBN differently on two requests is not captured. This matters only when a failed ISBN
  is requested again.
- Transport failures of the HTTP request are not modelled. `GetAsync` throws on a network
  failure (`HttpRequestException`) and when the client's default 100-second time-out
  expires (`TaskCanceledException`). Nothing catches either, so the whole run aborts. The
  `Lookup` oracle has only a non-success status (`None`) and a decoded record (`Some`), so
  it cannot express an aborted run.
- The runtime exceptions of the dynamic JSON access are not modelled. Examples are a
  success response without the `ISBN:<isbn>` key, or a null `authors` array.
- `Books.BookData` is a value. The source's object is filled field by field and never
  changed after it is returned. Sharing one object between the cache and the result list
  is not modelled, and neither is sharing the `Authors` list between a cached record and
  its copy. Nothing mutates either of them later.
- The null text fields of a failed record are modelled as empty text. String
  interpolation renders null as empty text.
- `AppendLine` uses the platform's line terminator. The model uses `"\n"`.
- `Pipeline.Successful`: its own contract says only that every kept record is a successful
  record of the input. That every successful record is kept exactly once, in order, and
  nothing else is kept, is stated by the lemmas `SuccessfulKeeps` (a successful record
  extends the kept records of the prefix by itself alone), `SuccessfulDrops` (a failed record
  extends them by nothing) and `SuccessfulComplete`. This keeps the function's contract
  cheap for the proofs that use it.
- `Text.IntToString`: the row number is rendered without the culture-specific sign or
  digits that .NET may use.
- The row counter is an unbounded integer. 32-bit overflow after 2^31 lines is not modelled.
- `Text.IsWhiteSpace` follows `Char.IsWhiteSpace` for all Unicode white space, but only
  code points are modelled. Surrogate pairs and .NET's UTF-16 indexing are not.
