# go_tools in Dafny

A model of the core of `go_tools`, a grab-bag of Go helpers. It covers:

- list and map chunking, de-duplication, set difference and membership;
- the bracket-counting JSON extractor;
- spreadsheet cell addresses and Roman numerals;
- the image-suffix whitelist;
- the two pinyin converters;
- the curl renderer of the HTTP client;
- the chunk planning of the three `DownloadFile` variants and the retry loops;
- the context-aware job runner;
- the CSV table, the i18n lookup table and the chat message builder.

Modules follow the Go packages, with two exceptions. `Curl` holds the curl renderer of `http_tools/client.go`. `Downloads` holds the chunk planning of `downloader`, `http_tools/download.go` and `http/req_client.go`. Everything is pure data:

- Structs are immutable datatypes.
- Setters and chaining methods are functions from the old record to the new one.
- Loops with interesting invariants are methods.
- Whatever the Go code gets from outside is a parameter: the pinyin dictionaries, `Execute`, the server's replies, a map's iteration order and the moment of a context cancellation.

Shared pieces:

- `Wrappers` holds `Option` and `Result`.
- `Seqs` holds concatenation, subsequences and ceiling division.
- `Decimal` is Go's `%d` on integers, with `ParseInt` as its inverse. `ParseInt` reads only an optional `-` followed by digits.
- `GoInt` is Go's 64-bit `int`: its range, the wrap-around of a sum, and the truncating `/`.
- `GoStrings` covers the parts of the `strings` and `unicode` packages that the core calls: `Join`, `Fields`, `ReplaceAll` of a single space, `ToLower` and `unicode.IsSpace`.

Behaviours of the code that the model keeps as they are:

- **JSON extractor.** It counts `{`/`[` against `}`/`]` with one counter. So `{` may be closed by `]`, and brackets inside string literals count. A stray closer shifts the depth: the piece returned is the first one that takes the counter from 1 back to 0. For `]{{}}` that is the inner `{}`, and for `]{}` nothing is found.
- **`GetRetry`/`PostRetry`.** These return the error of the last attempt only. Three responses with status 500 give a nil error.
- **`downloader.DownloadFile`.** It divides with Go's truncating `/`. With fewer bytes than chunks, every chunk but the last is the empty inclusive range `0..-1`. A negative `Content-Length` yields ranges running backwards.
- **Curl renderer.** It puts every value between single quotes without escaping anything.
- **Job runner.** A job that panics publishes the `Data` of the attempt before the panic.
- **i18n.** `keyConfig` maps each key to the key itself, not to its translation.
- **`CSVData.LoadFromLines`.** It does not clear an earlier error.

## Model

| member | source | states |
|---|---|---|
| ListOps.SplitList | list/split_list.go:5-18 | in Go's 64-bit `int`: a panic exactly when n > 0 and ⌈len/n⌉·n passes MaxInt; otherwise an error exactly when n ≤ 0, with the source's message, and else chunks that concatenate back to the list, every chunk but the last of exactly n elements, the last of 1..n, ⌈len/n⌉ chunks |
| ListOps.SplitFromChunks | list/split_list.go:10-16 | the loop from start i panics exactly when the end of its last piece passes MaxInt, and otherwise yields the chunks of the rest |
| ListOps.LastEndCeil | list/split_list.go:10-11 | the last piece's `end` before the cut to the length is i + ⌈(len-i)/n⌉·n |
| ListOps.SplitFromStart | list/split_list.go:9-17 | the whole loop panics exactly when ⌈len/n⌉·n passes MaxInt, and otherwise chunks the list |
| ListOps.SplitListOverflows | list/split_list.go:11-15 | 2^62+2 zero-size elements in pieces of 2^62+1 panic: the second `end` wraps negative |
| ListOps.SplitListCorrected | list/split_list.go:5-18 | with the last `end` cut to the length before it can wrap: the error exactly when n ≤ 0, otherwise ⌈len/n⌉ chunks concatenating to the list, full chunks of n and a last chunk of 1..n |
| ListOps.SplitListAgrees | list/split_list.go:5-18 | wherever the code as written returns, it returns what the corrected version does |
| ListOps.Chunks | list/split_list.go:9-17 | the slicing loop when no `end` wraps: concatenation gives the input back, full chunks of n, a non-empty last chunk of at most n, ⌈len/n⌉ chunks |
| ListOps.UniqList | list/uniq_list.go:3-13 | the result holds exactly the elements of the input, none twice, as a subsequence of the input, in the order of their first occurrence |
| ListOps.UniqFromDistinct | list/uniq_list.go:6-11 | a duplicate-free list none of whose elements was seen before passes through the loop unchanged |
| ListOps.UniqListIdempotent | list/uniq_list.go:3-13 | de-duplicating twice is the same as de-duplicating once |
| ListOps.FindDifferenceNotInSlice2 | list/diff.go:4-18 | x is in the result iff it is in slice1 and not in slice2; kept elements keep their multiplicity, removed ones occur 0 times; the result is a subsequence of slice1 |
| ListOps.DifferenceWithEmpty | list/diff.go:4-18 | with an empty slice2 the result is slice1 |
| ListOps.DifferenceAppend | list/diff.go:11-15 | the difference distributes over concatenation of slice1 |
| ListOps.InList | list/in_list.go:7-14 | true iff some position of the list holds the element |
| ListOps.InListAppend | list/in_list.go:7-14 | membership in a concatenation is membership in either part |
| MapSplit.SplitMap | map/split_map.go:5-35 | for a Go `int` n and at most MaxInt values: the n ≤ 0 error first, then the empty-map error; no result (a panic or an endless loop) iff total + n - 1 passes MaxInt, where the sum wraps; otherwise between 1 and n chunks that concatenate to the values, all but the last of size ⌈total/n⌉, the last of 1..⌈total/n⌉ |
| MapSplit.TwoValuesMaxIntChunks | map/split_map.go:22-31 | two values with n = MaxInt give chunkSize -1 and no result |
| MapSplit.CorrectedChunkSize | map/split_map.go:22 | (total - 1) / n + 1 is ⌈total/n⌉ for every positive total and n |
| MapSplit.SplitMapCorrected | map/split_map.go:5-35 | with the non-overflowing chunk size: the two errors, and otherwise the chunks above, for every n |
| MapSplit.CorrectionAgrees | map/split_map.go:5-35 | wherever the code as written returns, the corrected function returns the same |
| MapSplit.AtMostNChunks | map/split_map.go:22-32 | chunks of ⌈total/n⌉ never make more than n chunks |
| MapToolsSplit.SplitMap | map_tools/split_map.go:5-32 | the chunkSize ≤ 0 error first, then the empty-map error; otherwise ⌈total/chunkSize⌉ chunks concatenating to the values, full chunks of chunkSize and a non-empty last one |
| MapToolsSplit.SevenByTwo | map_tools/split_map.go:23-29 | seven values in chunks of two give four chunks, the last holding one value |
| JsonExtract.ExtractJsonFromStr | json_tools/extract_json_from_str.go:8-35 | "no JSON found" iff no opener is met at counter 0; "incomplete JSON string" iff the first such opener is never balanced; otherwise the span from that opener to where the counter first returns to 0 |
| JsonExtract.ScanCorrect | json_tools/extract_json_from_str.go:13-34 | from any index at which the loop invariant holds (counter = openers minus closers so far, `found` iff a start was seen, `jsonStart` the first start), the rest of the loop returns the result above |
| JsonExtract.ExtractedSpanIsBalanced | json_tools/extract_json_from_str.go:21-26 | an extracted piece starts with an opener, ends with a closer, has balance 0 and positive balance on every proper prefix |
| JsonExtract.StrayCloserHidesJson | json_tools/extract_json_from_str.go:21-26 | "]{}" yields "no JSON found": the stray closer leaves the counter at -1 |
| JsonExtract.StrayCloserShiftsDepth | json_tools/extract_json_from_str.go:15-26 | "]{{}}" yields the inner "{}": after a stray closer the first opener is met at counter -1 |
| JsonExtract.KindsAreNotPaired | json_tools/extract_json_from_str.go:15-26 | "x{]y" yields "{]" |
| JsonExtract.BracketsInStringsCount | json_tools/extract_json_from_str.go:15-26 | a closing brace inside a JSON string literal ends the extracted piece |
| JsonExtract.UnclosedIsIncomplete | json_tools/extract_json_from_str.go:30-34 | "ok {[}" yields "incomplete JSON string" |
| Decimal.NatDigits | excel_tools/get_cell_address.go:22 | the decimal digits of a natural number: non-empty, digits only, no leading zero unless the number is 0, and reading them back gives the number |
| Decimal.FormatInt | excel_tools/get_cell_address.go:22 | `%d`: starts with '-' iff the number is negative, parsing it back gives the number, and it is canonical: no leading zero except in "0", and no "-0" |
| Decimal.PlainDigitsUnique | excel_tools/get_cell_address.go:22 | two digit strings without a leading zero and with the same value are equal |
| Decimal.FormatIntUnique | excel_tools/get_cell_address.go:22 | `FormatInt(n)` is the only canonical string that parses as n, so the `%d` text is determined |
| ExcelCell.ColumnNumberToName | excel_tools/get_cell_address.go:6-15 | "" for n ≤ 0; otherwise a non-empty name over A..Z whose bijective base-26 value is n |
| ExcelCell.NameOfValue | excel_tools/get_cell_address.go:6-15 | every name over A..Z is the name of its own value, so the conversion is onto all names |
| ExcelCell.NameStep | excel_tools/get_cell_address.go:8-13 | one loop turn: the name of n is the name of (n-1)/26 followed by the letter of (n-1)%26 |
| ExcelCell.NamesAreDistinct | excel_tools/get_cell_address.go:6-15 | distinct positive column numbers get distinct names |
| ExcelCell.ColumnNameExamples | excel_tools/get_cell_address.go:6-15 | 1, 26 and 27 are "A", "Z" and "AA" |
| ExcelCell.ThreeLetterBoundary | excel_tools/get_cell_address.go:6-15 | 702 is "ZZ" and 703 is "AAA" |
| ExcelCell.GetExcelCellAddress | excel_tools/get_cell_address.go:20-23 | cutting the address at its first non-letter gives back the column (0 for a column ≤ 0) and the row, negative rows included, the row written in canonical `%d` form |
| ExcelCell.AddressExample | excel_tools/get_cell_address.go:20-23 | row 1, column 2 is "B1" |
| Roman.IntToRoman | number_tools/int2roman.go:8-22 | "" for num ≤ 0; for num ≥ 0 the numeral reads back, with the subtractive reading, as num |
| Roman.TableIsAligned | number_tools/int2roman.go:9-10 | the two tables have 13 entries, the values strictly decrease, and each symbol reads as its value |
| Roman.Tokens | number_tools/int2roman.go:14-19 | the entries the greedy loops write: in table range, in table order, nothing for num ≤ 0, summing to num, and the first one written is the first entry from the current position whose value fits |
| Roman.Greedy | number_tools/int2roman.go:14-19 | the loops write the first entry from position i that fits, then go on with the remainder from that same entry |
| Roman.SpellReadsAsSum | number_tools/int2roman.go:14-19 | writing entries in table order gives a numeral whose reading is the sum of their values |
| Roman.FewLeading | number_tools/int2roman.go:15-18 | below m times an entry's value, the inner loop writes that entry fewer than m times |
| Roman.NoFourFrom | number_tools/int2roman.go:14-19 | below four times the value at position i, no entry is written four times in a row |
| Roman.AtMostThreeRepeats | number_tools/int2roman.go:5-22 | for 1..3999 no table entry is written four times in a row |
| Roman.RomanThree | number_tools/int2roman.go:8-22 | 3 is "III" |
| Roman.RomanNine | number_tools/int2roman.go:8-22 | 9 is "IX" |
| Roman.RomanForty | number_tools/int2roman.go:8-22 | 40 is "XL" |
| GoStrings.ToLower | image/is_image.go:6 | same length; an upper-case ASCII letter becomes its lower-case form, U+0130 becomes 'i', U+212A becomes 'k', every other rune is kept; no upper-case ASCII letter is left |
| ImageSuffix.IsImage | image/is_image.go:5-13 | an accepted suffix has 3 or 4 characters |
| ImageSuffix.AcceptedSuffixes | image/is_image.go:5-13 | a suffix is accepted iff it spells one of jpg, jpeg, png, gif, bmp, webp ignoring case |
| ImageSuffix.LowerIsWord | image/is_image.go:6-8 | lower-casing gives a lower-case ASCII word iff the text spells that word ignoring case |
| ImageSuffix.CaseInsensitive | image/is_image.go:6 | a suffix and its lower-case form are accepted alike |
| ImageSuffix.AcceptedExamples | image/is_image.go:5-13 | "jpg", "JPG", "WebP" and "gİf" are accepted |
| ImageSuffix.RejectedExamples | image/is_image.go:5-13 | "", "tiff", ".png" and "pgn" are rejected |
| Hanzi.IsChinese | pinyin_tools/cn2pinyin.go:88-90 | the definition shared by both converters (pinyin/cn2pinyin.go:34-36 is the same): a rune in U+4E00..U+9FA5; `ChineseExamples` fixes both ends |
| Hanzi.ChineseCountStep | pinyin_tools/cn2pinyin.go:57-67 | one rune further, the count of Chinese runes grows by one exactly when that rune is in U+4E00..U+9FA5 |
| Hanzi.ChineseExamples | pinyin_tools/cn2pinyin.go:88-90 | U+4E00, U+9FA5 and 你 are Chinese; U+4DFF, U+9FA6, 'a' and '，' are not |
| GoStrings.Join | pinyin_tools/cn2pinyin.go:43 | "" for no parts; the length is the parts' total plus one separator per gap; with an empty separator, the plain concatenation |
| GoStrings.Fields | pinyin_tools/cn2pinyin.go:35 | every field is non-empty and free of white space, and the fields concatenate to the text with its white space removed |
| GoStrings.FieldsOfJoin | pinyin_tools/cn2pinyin.go:35 | splitting non-empty words joined by single spaces gives the words back |
| GoStrings.FieldsOfSpread | pinyin_tools/cn2pinyin.go:35 | fields are maximal: for non-empty space-free words separated by non-empty white-space runs, with optional white space before and after, `Fields` returns exactly those words |
| GoStrings.ReplaceSpaces | pinyin_tools/cn2pinyin.go:19-24 | with a space-free replacement no space is left; with "" the length drops by the number of spaces |
| GoStrings.ReplaceSpaceBySpace | pinyin_tools/cn2pinyin.go:19-24 | replacing " " by " " changes nothing, which is why the `split == " "` case may skip the replacement |
| GoStrings.ReplaceSpacesOfJoin | pinyin_tools/cn2pinyin.go:19-24 | words joined by spaces, spaces replaced by `rep`, are the words joined by `rep` |
| PinyinTools.ConvertToPinyin | pinyin_tools/cn2pinyin.go:14-27 | the dictionary text with every space replaced by `split`, for all three branches; no space is left when `split` has none |
| PinyinTools.ConvertToPinyinOfWords | pinyin_tools/cn2pinyin.go:14-27 | when the dictionary text is words separated by single spaces, the result is those words joined with `split`, for "" and " " too |
| PinyinTools.ConvertToPinyinList | pinyin_tools/cn2pinyin.go:32-36 | non-empty, space-free parts that concatenate to the dictionary text without its white space |
| PinyinTools.ConvertToPinyinListOfWords | pinyin_tools/cn2pinyin.go:32-36 | the list of a single-space-separated dictionary text is its words, so list and string agree |
| PinyinTools.ConvertToPinyinListSimple | pinyin_tools/cn2pinyin.go:50-70 | one part per rune: a non-Chinese rune stands for itself; a Chinese rune gets the first reading of the entry indexed by the number of Chinese runes before it, or itself when that entry is missing or empty |
| PinyinTools.ConvertToPinyinSimple | pinyin_tools/cn2pinyin.go:42-45 | the list above joined with `split` |
| PinyinPlain.ConvertToPinyin | pinyin/cn2pinyin.go:12-28 | succeeds iff every Chinese rune has a non-empty reading (otherwise the index panics), and then is the per-rune parts joined with `split` |
| PinyinPlain.MissingReading | pinyin/cn2pinyin.go:19-21 | a Chinese rune without a reading means the readings cannot cover the whole text |
| Curl.Quote | http_tools/client.go:140 | `'%s'`: the text between two single quotes, nothing escaped |
| Curl.UnquoteQuote | http_tools/client.go:140 | stripping the quotes gives the text back |
| Curl.HeaderFlags | http_tools/client.go:143-151 | one `-H` per value of every header other than Content-Type |
| Curl.OneHeaderFlags | http_tools/client.go:143-151 | one header gives nothing if it is Content-Type, and otherwise `-H 'Key: value'` for each of its values, in order |
| Curl.HeaderFlagsAppend | http_tools/client.go:143-151 | the flags of a concatenation of headers are the flags of the parts; with the one-header lemma this determines every flag |
| Curl.ContentTypeSkipped | http_tools/client.go:145-147 | a Content-Type header contributes nothing wherever it appears |
| Curl.FormFlags | http_tools/client.go:156-158 | one `-F 'key=value'` per form field, in order |
| Curl.FileFlags | http_tools/client.go:161-163 | one `-F 'field=@path'` per file, in order |
| Curl.Flags | http_tools/client.go:143-176 | an error iff there is no form data and the body cannot be read; `--data-raw` appears iff there is no form data and the body reads as non-empty text; the options in each case |
| Curl.CurlWords | http_tools/client.go:129-140 | "curl" first, then `-X` and the method iff the method is not GET, then the quoted URL |
| Curl.ConvertToCurlWithFiles | http_tools/client.go:128-179 | the words joined by single spaces; a body that was read is put back, so the request is unchanged |
| Curl.CurlWordsRoundTrip | http_tools/client.go:128-179 | reading the words back gives the method, the URL and exactly the options |
| GoInt.GoDiv | downloader/download.go:66 | Go's `/`, which truncates toward zero, for both signs of the dividend |
| GoInt.Wrap64 | map/split_map.go:22 | the 64-bit `int` an exact result wraps to: in range and congruent to it modulo 2^64 |
| GoInt.WrapOfSum | map/split_map.go:22 | a sum of two non-negative `int`s wraps exactly when it passes MaxInt, and then to a negative number |
| GoInt.AddNonNeg | list/split_list.go:11 | Go's `+` on two non-negative `int`s: the wrapped sum, negative exactly when the exact sum passes MaxInt |
| GoInt.Dec | downloader/download.go:76 | Go's `x - 1`: one less, except that MinInt wraps to MaxInt |
| GoInt.DecIsWrap | downloader/download.go:76 | `Dec` is the 64-bit wrap of the exact difference |
| GoInt.GoDivOfNegative | map/split_map.go:22 | a negative dividend gives a quotient of at most 0 |
| Downloads.PlanDownloader | downloader/download.go:19-77 | an error with the source's message iff the chunk count is outside 0..32; one request iff it is 0; otherwise exactly the inclusive ranges below, the last ending at size - 1 as Go computes it |
| Downloads.InclusiveRanges | downloader/download.go:66-77 | one range per chunk, chunk i starting at i times the truncated quotient and all but the last that long; the last ends at size - 1, or at MaxInt for a size of MinInt, where Go's `fileSize - 1` wraps |
| Downloads.InclusiveRangesInRange | downloader/download.go:73-74 | `i * chunkSize` and `start + chunkSize - 1` stay within a 64-bit `int` for every chunk and every size, so no other sum or product wraps |
| Downloads.MinSizeExample | downloader/download.go:66-77 | a size of MinInt in 2 chunks gives 0..MinInt/2 - 1 and MinInt/2..MaxInt |
| Downloads.InclusiveRangesTile | downloader/download.go:66-77 | with at least one byte per chunk the ranges, read half-open, tile [0, size) |
| Downloads.SmallFileRanges | downloader/download.go:66-77 | with fewer bytes than chunks every chunk but the last is the empty range 0..-1 and the last is 0..size-1 |
| Downloads.NegativeSizeExample | downloader/download.go:66-77 | a size of -5 in 2 chunks gives 0..-3 and -2..-6 |
| Downloads.TilesOrdered | http_tools/download.go:54-60 | in a tiling, earlier ranges end before later ones start |
| Downloads.TilesPartition | http_tools/download.go:54-60 | in a tiling, every byte of [0, size) lies in exactly one range |
| Downloads.ClampChunkCount | http_tools/download.go:17-19 | more than 32 chunks become 32; smaller counts are kept |
| Downloads.HalfOpenRanges | http_tools/download.go:50-60 | one half-open range per chunk |
| Downloads.HalfOpenRangesTile | http_tools/download.go:50-60 | with more bytes than chunks the chunk size is at least 1 and the ranges tile [0, size) |
| Downloads.PlanRanged | http_tools/download.go:16-47 | ranged requests iff the clamped count is above 1 and below the size; then 2..32 ranges tiling [0, size) |
| Downloads.RangeHeader | http_tools/download.go:65 | starts with "bytes="; for a chunk starting at a position ≥ 0, a server splitting at the first '-' reads back the chunk's first byte and its last byte end - 1 |
| Downloads.ParseRangeHeaderOf | http_tools/download.go:65 | `bytes=first-last` with sign-free digits before the dash reads back as the two numbers |
| Downloads.DownloadFlow | http_tools/download.go:16-47 | the send error, then "server returned N status" for a status other than 200, then the size's parse error; otherwise the ranged plan |
| HttpReq.Retry | http/req_client.go:97-106 | no request for a count ≤ 0; otherwise 1..count requests, stopping at the first one with no error and status 200, and the error of the last request made |
| HttpReq.GetRetry | http/req_client.go:97-106 | the retry loop with GET requests |
| HttpReq.PostRetry | http/req_client.go:111-120 | the retry loop with POST requests |
| HttpReq.NilErrorAfterFailures | http/req_client.go:97-106 | three 500 responses give three requests and a nil error |
| TaskRunner.StatusCode | multi_runner/worker.go:10-12 | the codes 0, 1 and 2 stand for waiting, running and ended, one code per status |
| TaskRunner.ErrorText | multi_runner/worker_with_ctx.go:114 | a recovered panic's text is "panic: " followed by the panic value |
| TaskRunner.PanicErrorText | multi_runner/worker_with_ctx.go:112-116 | when the last attempt panics, the job had a slot, the published error reads "panic: " and the panic value, and the data is the previous attempt's |
| TaskRunner.JobsCountCountsAdds | multi_runner/worker_with_ctx.go:240-242 | `GetJobsCount` of a new runner is the number of `AddJob` calls made on it, each of which adds one |
| TaskRunner.NewRunner | multi_runner/worker_with_ctx.go:41-53 | no runner for a negative size, where `make` panics; otherwise no jobs, not handled |
| TaskRunner.AddJob | multi_runner/worker_with_ctx.go:56-71 | one more job at the end, waiting, with no retries, allowed maxRetry attempts, or exactly one when maxRetry ≤ 0; the earlier jobs unchanged |
| TaskRunner.Capacity | multi_runner/worker_with_ctx.go:75-79 | the concurrency limit is the smaller of the size and the job count: at most each, equal to one of them, and positive when both are |
| TaskRunner.RunJob | multi_runner/worker_with_ctx.go:85-136 | the job's outcome: cancelled before a slot means no attempt and the context error; otherwise attempts stop at a cancellation, a panic, a nil error or `MaxRetry`, every earlier attempt failed, and the published result is the matching one, with a panic keeping the previous attempt's data |
| TaskRunner.JobOutcomeUnique | multi_runner/worker_with_ctx.go:85-136 | the outcome is determined: for the same dispatch, cancellations and attempts, two outcomes have the same final job and result |
| TaskRunner.StopsNoLater | multi_runner/worker_with_ctx.go:122-135 | no outcome stops the retry loop at a later attempt than another |
| TaskRunner.FirstSuccessPublished | multi_runner/worker_with_ctx.go:122-135 | a job whose first attempt returns no error stops after one attempt and publishes that result |
| TaskRunner.RunAll | multi_runner/worker_with_ctx.go:74-144 | the limit is cut down to the job count and stored as `maxSize`; one result per job, and each job's final state and result are its outcome as stated for `RunJob` |
| TaskRunner.ClaimHandling | multi_runner/worker_with_ctx.go:148-154 | only the first caller proceeds, and the flag stays set |
| TaskRunner.HandleResultsWithStream | multi_runner/worker_with_ctx.go:147-170 | a prefix of the results in channel order, all of them when no cancellation comes first, none on any later call |
| TaskRunner.HandleAllResultsWith | multi_runner/worker_with_ctx.go:199-227 | all results when the jobs finish before a cancellation, otherwise none, and none on any later call |
| TaskRunner.OnlyFirstHandlerRuns | multi_runner/worker_with_ctx.go:148-154 | after any handler, every later handler sees no result |
| TaskRunner.GetJobStatus | multi_runner/worker_with_ctx.go:245-251 | found iff a job has that ID, and then its status code; otherwise -1 |
| CsvData.NewCsvData | csv_tools/csv_data.go:157-164 | no headers, no rows, the comma separator and no error |
| CsvData.IndexMap | csv_tools/csv_data.go:70-73 | the names of the line are the keys, and each maps to its last position in the line |
| CsvData.SetHeaders | csv_tools/csv_data.go:68-74 | the line is stored, a name is mapped iff it is in the line, to its last position, and nothing else changes |
| CsvData.GetHeaderIndex | csv_tools/csv_data.go:82-87 | -1 iff the name is not a header, otherwise its column |
| CsvData.HeaderIndexAfterSet | csv_tools/csv_data.go:68-87 | after setting a header line, the index of a name is i iff i is its last position, or -1 when it is absent |
| CsvData.GetLineValue | csv_tools/csv_data.go:90-97 | the cell only when the name is known, the row exists and is long enough; "" otherwise |
| CsvData.SetSplit | csv_tools/csv_data.go:100-107 | the separator is never empty: "" selects ",", anything else is kept, nothing else changes |
| CsvData.SetSplitIdempotent | csv_tools/csv_data.go:100-107 | setting a separator twice is setting it once |
| CsvData.GetData | csv_tools/csv_data.go:53-55 | the rows: every cell `GetLineValue` finds under a known name is the cell of these rows at that name's column |
| CsvData.SetData | csv_tools/csv_data.go:53-60 | `GetData` returns what was set, nothing else changes |
| CsvData.AppendData | csv_tools/csv_data.go:63-65 | exactly one row more, at the end, the earlier rows unchanged |
| CsvData.AppendAll | csv_tools/csv_data.go:58-65 | appending rows one by one builds the same table as setting them at once |
| CsvData.LoadFromLines | csv_tools/csv_data.go:42-50 | no lines: the error becomes EOF and nothing else changes; otherwise the first line is the header, the rest the rows, and the error is kept |
| CsvData.LineValueAfterLoad | csv_tools/csv_data.go:42-97 | after loading, the value under a name in row r is line r+1 at the name's last column, or "" when that does not exist |
| CsvData.FreshTableIsEmpty | csv_tools/csv_data.go:157-164 | a new table answers -1 and "" to every lookup |
| I18n.NewI18nBuilder | i18n_tools/i18n.go:16-30 | the table is kept as given, and the inversion lists exactly the languages some key has, under each exactly the keys translated into it, each mapped to itself |
| I18n.AddLanguages | i18n_tools/i18n.go:19-24 | the inner loop records every language of one key |
| I18n.GetConfig | i18n_tools/i18n.go:43-45 | the table the builder was made from (`NewI18nBuilder` keeps it as given): `Get` returns its translation wherever it has one, and the key everywhere else |
| I18n.Get | i18n_tools/i18n.go:48-55 | the translation when the key has one in that language, otherwise the key itself |
| I18n.GetConfigWithKey | i18n_tools/i18n.go:67-72 | nil iff the key is unknown, otherwise its translations |
| I18n.GetThroughConfigWithKey | i18n_tools/i18n.go:48-72 | `Get` agrees with looking up the key's translations and then the language |
| I18n.GetKeyConfig | i18n_tools/i18n.go:75-80 | nil iff the language is not in the inversion, otherwise its entry |
| I18n.KeyConfigOfBuilder | i18n_tools/i18n.go:16-30 | for a built table: nil iff no key has that language; otherwise its keys are exactly those translated into it, each mapped to itself |
| I18n.KeyConfigKeysTranslate | i18n_tools/i18n.go:48-55 | a key listed under a language has a translation there, so `Get` does not fall back |
| I18n.GetWithParams | i18n_tools/i18n.go:58-64 | with no parameters the result is `Get` |
| MessageBuilder.NewMessageBuilder | ai_tools/builder.go:9-13 | no messages |
| MessageBuilder.AddMessage | ai_tools/builder.go:43-49 | one message more, with the given role and content, the earlier ones unchanged |
| MessageBuilder.System | ai_tools/builder.go:16-22 | appends one message with role "system" |
| MessageBuilder.User | ai_tools/builder.go:25-31 | appends one message with role "user" |
| MessageBuilder.Assistant | ai_tools/builder.go:34-40 | appends one message with role "assistant" |
| MessageBuilder.ShortcutsAreAddMessage | ai_tools/builder.go:16-49 | the three shortcuts are `AddMessage` with a fixed role |
| MessageBuilder.Build | ai_tools/builder.go:52-54 | the messages in the order they were added; over any history of calls `ReplayIsLog` states which ones they are |
| MessageBuilder.Count | ai_tools/builder.go:62-65 | the number of messages `Build` returns |
| MessageBuilder.Clear | ai_tools/builder.go:57-60 | the count drops to 0 |
| MessageBuilder.GetMessages | ai_tools/builder.go:68-72 | a fresh copy equal to the messages |
| MessageBuilder.SinceClear | ai_tools/builder.go:57-60 | the calls since the last `Clear`: a suffix with only additions, preceded by a `Clear` unless it is everything |
| MessageBuilder.ReplayIsLog | ai_tools/builder.go:16-65 | after any sequence of calls, `Build` is the messages added since construction or the last `Clear`, in order, and `Count` is their number |

## Left out

- Go map iteration order is unspecified. The values of a map (`SplitMap`), the headers and form fields of a request (curl), and the keys and languages of the i18n config are taken in a given order. The same goes for the order in which `Run` visits its jobs.
- Concurrency: goroutines, channels, `sync.WaitGroup` and the mutex.
  - `Run`'s results are given in job order, whereas the channel delivers them in completion order.
  - Cancellation is an input that says where it happens.
  - A capacity of 0 (`maxSize` 0) makes every job wait for a slot until the context is cancelled; the model represents this only through the `Dispatch` input.
  - `HandleAllResultsWith` closes `results`, and so does the goroutine `Run` starts, so a second close can panic. Both are left out.
- `HandleResultsWithStreamAndOutput` is the stream handler with an extra argument passed to the handler. `TaskRunner.HandleResultsWithStream` models both.
- `downloadFileChunks` in `http_tools` and `http` adds each `Range` header to the one shared request from every goroutine, so later requests carry several ranges. Only the header each chunk adds is modelled.
- The downloads' file creation, seeking and copying, the HEAD request, `Send`, and the error channel of `downloader.DownloadFile` are I/O. `DownloadFlow` keeps only the order of the checks before the ranges are planned.
- `pinyin.Pinyin` and `phrase.Paragraph` are dictionaries: they are the parameters `readings` and `paragraph`. `AddCustomDict` and `InitDict` only load dictionaries and are left out.
- I18n.GetWithParams: `strings.ReplaceAll` for arbitrary patterns and `cast.ToString` are a parameter. Only the empty-parameter case is stated.
- `NewI18NBuilderFromJson` parses JSON with `encoding/json` and is left out.
- `LoadFromReader`, `SaveToFile` and `GetError` of `CSVData` do CSV parsing and file I/O and are left out.
- `Cancel` and `Context` of the runner are not modelled; cancellation is an input.
- Bytes against runes: the JSON extractor and the curl body work on bytes, the model on characters. The extractor finds the same span either way, since brackets are single ASCII bytes.
- InList: the early `return true` is not modelled; the function is stated as a membership test, which has the same result.
- GoStrings.ToLower: maps only ASCII letters, U+0130 and U+212A. Other non-ASCII case mappings of Go's `strings.ToLower` are left as the identity, because only ASCII words matter to `IsImage`.
- GoStrings.ReplaceSpaces: states the length only for an empty replacement, not the general formula.
- Hanzi.ChineseCount: the function itself states only that the count is at most the length. Its meaning is stated one rune at a time by `ChineseCountStep`.
- Integer widths: Go's `int` is 64 bits. `MapSplit.SplitMap` models the wrap-around of its sum, and `ListOps.SplitList` the wrap-around of `i + n` in its loop, which a slice of zero-size elements can reach. `Downloads.InclusiveRanges` models the wrap of `fileSize - 1`, and `Downloads.InclusiveRangesInRange` shows that no other sum or product of the inclusive ranges wraps. Everywhere else the model uses unbounded integers. In the two `SplitMap` loops, `end := i + chunkSize` cannot wrap. On the first pass `i` is 0, so `end` is `chunkSize`, an `int`. A later pass has `chunkSize <= i < total`, so `end` is below twice the number of map entries, and no map can hold MaxInt/2 entries, since every entry takes memory.
- `strconv.Atoi`: the downloads take the parsed `Content-Length` as an input (a `Result`), so Go's parsing is not modelled. Its acceptance of a leading `+` and its range error past 64 bits are therefore not covered. `Decimal.ParseInt` is only the inverse of `%d`.
- MessageBuilder.Build: Go returns the builder's own slice, so later appends through the builder can show through it, while `GetMessages` returns a copy. The model treats both results as values, and the aliasing is not modelled.
- TaskRunner.AddJob: Go keys each job by a fresh `uuid.NewString()` in a `sync.Map`. The model takes the ID as a parameter and does not state that it is fresh. `GetJobStatus` returns the first job with the ID, which is the only one when IDs are fresh.
- Curl.ConvertToCurlWithFiles: after a failed body read Go returns the error and leaves the body consumed. The model's `Err` carries only the error, not the request state. The URL is taken as the text `URL.String()` produces, so Go's normalisation of URLs is not modelled.
- Roman.AtMostThreeRepeats: counts repeats of the same table entry, not of the same letter. That no letter appears four times in a row is not stated.

## Findings

| source | as written | input that shows it | evidently intended | confidence | as-written member | corrected member |
|---|---|---|---|---|---|---|
| map/split_map.go:22 | `chunkSize := (total + n - 1) / n` wraps past MaxInt, giving chunkSize ≤ 0. `values[i:end]` then panics, or the loop never advances | two values, n = MaxInt: the sum wraps to MinInt, chunkSize = -1, and `values[0:-1]` panics | the rounded-up quotient for every positive n, as the comment on line 22 says: `(total - 1) / n + 1` | medium, not executed | MapSplit.TwoValuesMaxIntChunks | MapSplit.SplitMapCorrected |
| list/split_list.go:11 | `end := i + n` wraps past MaxInt on the last piece, and `list[i:end]` with a negative `end` panics | a `[]struct{}` of 2^62+2 elements with n = 2^62+1: the second `end` is 2^63+2, which wraps negative | the last piece ends at `len(list)` for every positive n, e.g. by comparing `n > len(list) - i` before adding | low (needs a slice of zero-size elements), not executed | ListOps.SplitListOverflows | ListOps.SplitListCorrected |
