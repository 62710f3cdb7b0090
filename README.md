# Line-item extraction from PDF text, in Dafny

This project models the part of the PDF-to-Excel converter that turns the text
of a PDF into a list of order line items. Each item has a stock code, a
description, a quantity and a unit price. The model has two versions of that
logic.

- **`pdfProcessor.js`**:
  - Normalises the page text.
  - Runs an ordered list of regular expressions over it: three built-in patterns, then the caller's.
  - Turns each match into an item and cleans its description.
  - Validates items under a basic or a strict profile.
  - Deduplicates by a configurable composite key.
  - Processes files in chunks, aggregating the per-file outcomes into an item list, an error list and a summary.
  - Exports items as JSON, CSV or plain text.
- **`script.js`**: the page script.
  - Keeps the list of selected files, adding and removing entries.
  - Converts every file with its own single-pattern parser.
  - Deduplicates the rows of all files by description, quantity and price.
  - Shows a final status message.

## Modules

| file | module | what it holds |
|---|---|---|
| `wrappers.dfy` | `Wrappers` | `Option` and `Result` |
| `js_string.dfy` | `JsString` | the JavaScript string operations used (`\s`, `\w`, `trim`, ASCII case mapping, `replace(/\s+/g, ' ')`, `join`, `split`) |
| `js_number.dfy` | `JsNumber` | `parseInt(s, 10)`, `parseFloat`, `toFixed(2)` and `String(n)` on exact decimals; prices are counts of hundredths |
| `dedup.dfy` | `Dedup` | keeping the first element per key: the `Set` loop (`KeepFirst`) and the `filter`/`findIndex` idiom (`FilterFirst`), proved equal |
| `cleaning.dfy` | `Cleaning` | text normalisation and `cleanDescription` |
| `extraction.dfy` | `Extraction` | items, `extractItemFromMatch`, `validateItem`, `removeDuplicates`, `parseTextForItems`; `ParsedItems` defines the items `parseTextForItems` returns, and the `ParseTextForItems` rows state its properties |
| `batch.dfy` | `Batch` | `extractDataFromPDF` and `batchProcessPDFs`; `ExtractDataFromPDF` defines one file's result, which the `ExtractOutcome` and `ExtractedItemsValid` rows describe |
| `export.dfy` | `Export` | `exportData`; `Csv` and `Txt` define the two text formats, and the `CsvLines`, `TxtBlocks` and `ExportData` rows state their contents |
| `legacy_script.dfy` | `LegacyScript` | `script.js`: its parser, `convertFiles`, and the page state as class `Session`; `MatchToItem` (one match), `ScriptItems` (all matches of a text), `ScriptExtract` (one file), `Gathered` (all files) and `AddFiles` (the file list after a selection) define the values whose properties the rows below state |

**Regular expressions.** The regular-expression engine is a parameter.
`exec(pattern, text)` is the sequence of non-null results that repeated
`pattern.exec(text)` calls return. A `Match` holds `match[0]` and the capture
groups, with `None` for a group that did not take part.

**Numbers.** `NaN` and integers are `Num`. A parsed decimal literal is an exact
`Decimal`. A price that went through `toFixed(2)` is an integer number of
hundredths. So strict mode's bound of 100000 on the price becomes 10000000
hundredths.

**Reading PDFs.** Reading a PDF is not modelled. A `PdfFile` carries its name,
its MIME type and the outcome of reading its pages: either the page text, or
the message of the error that the reader raised.

**Two details of the code.**

- `batchProcessPDFs` (`pdfProcessor.js:341-345`) never adds a `sourceFile`
  tag to the items it gathers, so the model's items have no such field.
- `extractDataFromPDF` passes only `{ pageTexts }` to `parseTextForItems`
  (`pdfProcessor.js:96`). So per-file extraction always runs in basic mode with
  no custom patterns, whatever options the batch was given.

## Model

| member | source | states |
|---|---|---|
| JsString.Trim | pdfProcessor.js:182-183 | the result has no leading or trailing white space, is no longer than the input, and leaves an already trimmed string unchanged |
| JsString.TrimIsSlice | pdfProcessor.js:182-183 | `trim()` keeps one contiguous slice of the input, and everything before and after that slice is white space |
| JsString.TrimKeepsNonSpace | pdfProcessor.js:182-183 | `trim()` keeps every character that is not white space, in order |
| JsString.ToUpper | pdfProcessor.js:191 | same length, each character upper-cased, and no ASCII lower-case letter remains |
| JsString.ToLower | pdfProcessor.js:278-280 | same length, each character lower-cased, and no ASCII upper-case letter remains |
| JsString.CollapseSingleSpaced | pdfProcessor.js:123 | after `replace(/\s+/g, ' ')` the only white space left is single spaces |
| JsString.CollapseKeepsNonSpace | pdfProcessor.js:123 | `replace(/\s+/g, ' ')` keeps every character that is not white space, in order |
| JsString.ReplaceRunsAppend | pdfProcessor.js:123-124 | `replace(/[P]+/g, ' ')` of two strings whose junction does not split a run is the two results joined |
| JsString.CollapseRun | pdfProcessor.js:123 | a maximal run of white space between two pieces of text becomes exactly one space, and each piece is collapsed on its own |
| JsString.TrimJoin | pdfProcessor.js:125 | trimming two texts joined by one space, with no white space next to it, trims each text and keeps that space |
| JsString.CollapseFixesSingleSpaced | pdfProcessor.js:123 | collapsing text that is already single-spaced changes nothing |
| JsString.TrimEmpty | pdfProcessor.js:92-94 | `trim()` gives the empty string exactly when every character is white space |
| JsString.SplitJoin | pdfProcessor.js:383 | splitting a `join('\n')` whose parts contain no line break gives back the parts |
| JsNumber.NatToString | pdfProcessor.js:198 | `String(n)` is a non-empty string of digits whose value is `n` |
| JsNumber.ParseInt | pdfProcessor.js:184 | `parseInt(s, 10)` is NaN exactly when no digit follows the skipped white space and optional sign |
| JsNumber.IntToStringRoundTrip | pdfProcessor.js:184 | `parseInt(String(i), 10)` is `i` for every integer |
| JsNumber.ParseFloat | pdfProcessor.js:185 | a parsed number carries the sign that was read |
| JsNumber.ParseDecimalLiteral | pdfProcessor.js:185 | a literal `[-]ddd.ddd` parses to exactly its digits and its number of decimals |
| JsNumber.RoundToCents | pdfProcessor.js:197 | `toFixed(2)` keeps the sign: a negative number never gives a positive price and a positive one never a negative price |
| JsNumber.RoundToCentsNearest | pdfProcessor.js:197 | the size of the result is the nearest hundredth to the size of the number, a half rounding away from zero |
| JsNumber.NearestUnique | pdfProcessor.js:197 | there is only one nearest hundredth, so the rounding is determined |
| JsNumber.TwoDecimalsExact | pdfProcessor.js:197 | a literal with exactly two decimals is kept exactly by `toFixed(2)` |
| JsNumber.ToFixed2RoundTrip | script.js:170 | the `toFixed(2)` text reads back, with two decimals, as the same hundredths |
| JsNumber.CentsToStringRoundTrip | pdfProcessor.js:390 | `parseFloat(String(x))` gives back `x` for a price in hundredths |
| Dedup.KeepFirst | pdfProcessor.js:270-289 | the kept elements are no more than the input and all come from it |
| Dedup.KeepFirstKeys | pdfProcessor.js:270-289 | the kept elements have exactly the input's keys minus those already seen, pairwise distinct |
| Dedup.KeepFirstFromScratch | pdfProcessor.js:270-289 | starting from no seen keys: a subsequence of the input with the same key set and distinct keys |
| Dedup.KeepFirstSubsequence | pdfProcessor.js:273-288 | deduplication only deletes elements and keeps their order |
| Dedup.KeepFirstDistinct | pdfProcessor.js:273-288 | a list whose keys are already distinct and unseen is returned unchanged |
| Dedup.KeepFirstIdempotent | pdfProcessor.js:262-293 | deduplicating twice is the same as once |
| Dedup.KeepFirstAppend | pdfProcessor.js:273-288 | deduplicating a concatenation deduplicates the second part against the keys of the first |
| Dedup.KeepFirstCount | pdfProcessor.js:166 | deduplication never raises the number of elements of any rank, such as a pattern number |
| Dedup.KeepFirstOrdered | pdfProcessor.js:166 | deduplication keeps any order the input had |
| Dedup.FindIndex | script.js:96-100 | `findIndex` is -1 when no element has the key, else the first index that has it |
| Dedup.FindIndexFirst | script.js:95-101 | `index === findIndex(...)` holds exactly when no earlier element has the same key |
| Dedup.FilterFirstIsKeepFirst | script.js:95-101 | the `filter` from position `i` keeps what the `Set` loop keeps, given the keys before `i` |
| Dedup.FilterFirstAll | script.js:95-101 | the `filter`/`findIndex` idiom and the `Set` loop give the same list |
| Cleaning.NormalizeText | pdfProcessor.js:122-125 | normalised text is single-spaced and trimmed |
| Cleaning.NormalizeKeepsNonSpace | pdfProcessor.js:122-125 | normalising keeps every character of the input that is not white space, in order |
| Cleaning.NormalizeRun | pdfProcessor.js:122-125 | a run of white space between two words becomes exactly one space, and each side is normalised on its own |
| Cleaning.NormalizeIdempotent | pdfProcessor.js:122-125 | normalising normalised text changes nothing |
| Cleaning.CutAtMarker | pdfProcessor.js:216 | the result is the prefix before the first case-insensitive `Specifications:`, no marker starts inside it, and one starts right after it when anything was cut |
| Cleaning.RemoveDisallowed | pdfProcessor.js:218 | the result is exactly the input's characters of the class `[\w\s,.-]`, all of them, in order; with single spaces only, each is a description character |
| Cleaning.CleanDescription | pdfProcessor.js:212-220 | an empty description stays empty; the result is trimmed and made only of `\w`, space, `,`, `.` and `-` |
| Cleaning.CleanDescriptionKeeps | pdfProcessor.js:212-220 | the visible characters of a cleaned description are exactly the `\w`, `,`, `.` and `-` characters before the first `Specifications:`, in order |
| Cleaning.CleanRun | pdfProcessor.js:217-218 | before the final trim, a run of white space between two pieces of text becomes one space that the character filter keeps, and each piece is cleaned on its own |
| Cleaning.CleanDescriptionRun | pdfProcessor.js:212-220 | in a description without `Specifications:`, two words separated by white space come out as the two cleaned words joined by one space |
| Cleaning.CleanIgnoresSpecifications | pdfProcessor.js:216 | nothing after the first `Specifications:` affects the cleaned description |
| Extraction.ExtractItemFromMatch | pdfProcessor.js:178-205 | no item exactly for a match array shorter than 5; otherwise the pattern number and `match[0]`, a trimmed code with no lower-case letter, a trimmed description of description characters, a quantity that is NaN exactly when its capture is missing or `parseInt` fails, and a price that is NaN exactly when its capture is missing or does not parse |
| Extraction.ExtractedFields | pdfProcessor.js:178-205 | the code is the upper-cased trimmed capture, the description the cleaned trimmed capture, the quantity what `parseInt` reads, and a price is the capture's value rounded to the nearest hundredth, with its sign |
| Extraction.ExtractedPriceExact | pdfProcessor.js:185-197 | a price that `parseFloat` reads as an unsigned number with exactly two decimals is stored exactly, in hundredths |
| Extraction.ExtractedQuantityExact | pdfProcessor.js:184 | a quantity captured as the digits of `n` is stored as `n` |
| Extraction.ValidateItem | pdfProcessor.js:228-254 | an accepted item has a positive quantity and price, and in strict mode at most 10000 units and 100000 of currency |
| Extraction.StrictImpliesBasic | pdfProcessor.js:240-251 | whatever strict validation accepts, basic validation accepts |
| Extraction.ProfilesDiffer | pdfProcessor.js:234-250 | a four-letter description passes only basic validation; strict mode's price bound is inclusive |
| Extraction.KeyParts | pdfProcessor.js:275-282 | one rendered field per compared field, in the order given |
| Extraction.CaseInsensitiveKey | pdfProcessor.js:278-280 | without `caseSensitive`, items differing only in the case of their strings share a key |
| Extraction.RemoveDuplicates | pdfProcessor.js:262-293 | a non-array gives `[]`; otherwise the first item per key, a subsequence of the input with the same key set and distinct keys |
| Extraction.VisitItem | pdfProcessor.js:273-288 | the callback on one item keeps the loop's state equal to deduplicating one more item |
| Extraction.DedupStep | pdfProcessor.js:285-288 | the next item is kept exactly when its key is new, and its key joins the seen set |
| Extraction.AcceptedItems | pdfProcessor.js:148-160 | at most one item per match, each tagged with its pattern number and valid |
| Extraction.AcceptMatches | pdfProcessor.js:145-160 | the loop keeps the valid items of the first `min(matches, 1000)` matches, in match order |
| Extraction.CandidateItems | pdfProcessor.js:129-163 | at most 1000 items per pattern number (so at most 1000 per pattern tried in total), each valid and from one of the patterns tried, in pattern order |
| Extraction.ConcatCounts | pdfProcessor.js:145-160 | appending at most 1000 items of a new pattern keeps every pattern's count within 1000 |
| Extraction.ConcatOrdered | pdfProcessor.js:143-163 | appending a later pattern's items keeps the pattern order |
| Extraction.RunPatterns | pdfProcessor.js:143-163 | the loop over the patterns gathers every pattern's accepted items, pattern by pattern |
| Extraction.DedupKeepsValid | pdfProcessor.js:166 | deduplicating valid items leaves valid items with distinct default keys |
| Extraction.DedupCandidates | pdfProcessor.js:166 | deduplicating candidates adds none and keeps them valid, in pattern order and with distinct keys |
| Extraction.ParsedItemsProperties | pdfProcessor.js:113-170 | every returned item is valid, no two share a default key, at most 1000 carry any one pattern number, and they come in pattern order |
| Extraction.ParseTextForItems | pdfProcessor.js:113-170 | a non-string or empty text gives `[]`; otherwise the deduplicated valid items of all patterns, with the properties above |
| Batch.ExtractOutcome | pdfProcessor.js:39-105 | each guard raises its own message (missing file, not a PDF, failed read, no text); any other text is parsed |
| Batch.ExtractedItemsValid | pdfProcessor.js:96-99 | a file's items are valid in basic mode and have distinct default keys |
| Batch.Outcomes | pdfProcessor.js:312-338 | one result per file, in submission order |
| Batch.CountsAddUp | pdfProcessor.js:349-354 | successful files plus errors equal the number of files |
| Batch.ErrorsAreFailures | pdfProcessor.js:329-333 | each error names a failed file and carries its message |
| Batch.ProgressCountsUp | pdfProcessor.js:319-326 | one progress report per successful file, counts strictly increasing within `1..total`, each naming the file and its item count |
| Batch.SuccessItemsValid | pdfProcessor.js:341-343 | the combined items of the successful files are valid in basic mode |
| Batch.ChunkStep | pdfProcessor.js:315-337 | one more file appends its result, and adds an error when it fails or a progress report when it succeeds |
| Batch.ProcessFile | pdfProcessor.js:315-331 | the callback on one file leaves results, errors and progress equal to those of one more file |
| Batch.ProcessChunk | pdfProcessor.js:312-338 | a chunk's results, errors and progress reports are appended in file order |
| Batch.BatchProcessPDFs | pdfProcessor.js:301-359 | no files is an error; otherwise the counts, errors, deduplicated valid items and summary follow the per-file outcomes, whatever the concurrency |
| Export.FieldsReadBack | pdfProcessor.js:379 | `Object.values(item)` gives one value per key; the quantity and price texts read back as the item's numbers, and the source text names its pattern |
| Export.Escape | pdfProcessor.js:380 | doubling quotes adds no line break |
| Export.ReadEscaped | pdfProcessor.js:380 | a quoted, escaped value reads back as the value |
| Export.ParseQuotedRow | pdfProcessor.js:378-381 | a CSV row of quoted values reads back as those values |
| Export.NumbersOnOneLine | pdfProcessor.js:380 | `String(n)` of a quantity or price contains no line break |
| Export.RowOneLine | pdfProcessor.js:378-381 | a row of an item whose strings have no line break is one line |
| Export.ExportData | pdfProcessor.js:367-397 | an empty or non-array input gives `[]` for exactly `json` and `''` otherwise; `json`, `csv` and `txt` in any case select their format; any other format is an `Unsupported format` error |
| Export.EmptyJsonIsCaseSensitive | pdfProcessor.js:368-374 | every spelling of `json` other than the lower-case one, such as `JSON`, gives `''` for no items although it selects JSON output for a non-empty list |
| Export.CsvLines | pdfProcessor.js:376-383 | the CSV text has the header line and one line per item, and each item line reads back as that item's values |
| Export.TxtBlocks | pdfProcessor.js:385-392 | the plain-text export has five lines per item: code, description, quantity, price and `---` |
| LegacyScript.ScriptNormalizeIsNormalizeText | script.js:143 | `script.js`'s normalisation equals `pdfProcessor.js`'s; the extra line-break pass changes nothing |
| LegacyScript.ScriptDescription | script.js:162 | the cut description is trimmed |
| LegacyScript.ScriptDescriptionCut | script.js:162 | the stored description holds no case-insensitive `Specifications:`, and keeps every visible character of the trimmed capture before the first one, in order |
| LegacyScript.MatchRowValues | script.js:153-172 | a stored row holds the trimmed code in its own case, a description without the `Specifications:` tail, the quantity `parseInt` reads, and a price text that reads back with two decimals as the capture rounded to the nearest hundredth |
| LegacyScript.MatchRowAccepted | script.js:156-171 | a stored row has a trimmed code and description, a description over 5 characters, a positive quantity, and a price text that reads back with two decimals |
| LegacyScript.ScriptItemsAccepted | script.js:141-177 | every row the parser returns is acceptable in that sense |
| LegacyScript.FailureStops | script.js:153-173 | once a match throws, the whole parse throws that error |
| LegacyScript.ZeroPriceParses | script.js:159 | `parseFloat('0.00')` is the number zero with two decimals |
| LegacyScript.ZeroPriceAccepted | script.js:159-171 | a price of `0.00` passes `script.js`'s acceptance rule and is stored as the text `0.00` |
| LegacyScript.ZeroPriceRejected | pdfProcessor.js:234-238 | the same price is zero in `pdfProcessor.js`, which rejects the item |
| LegacyScript.ScriptParseTextForItems | script.js:141-177 | the result is the rows of the single pattern's matches on the normalised text, or the first error |
| LegacyScript.ReadRows | script.js:152-173 | the `while` loop reads every match in order and stops at the first that throws |
| LegacyScript.ReadRow | script.js:153-172 | one pass of the loop body gives the parse of one more match |
| LegacyScript.Processed | script.js:80-92 | no more files are counted as processed than were selected |
| LegacyScript.ConvertStep | script.js:82-92 | each file's rows are appended, and the file is counted, exactly when its extraction succeeds |
| LegacyScript.ExtractAll | script.js:82-92 | the loop gathers the rows of the successful files in order and counts them |
| LegacyScript.TripleDedup | script.js:95-101 | the cross-file filter keeps the first row per (description, quantity, price), a subsequence with the same triples, all distinct |
| LegacyScript.StockCodeIgnored | script.js:95-101 | a row whose description, quantity and price match an earlier row is dropped, whatever its stock code |
| LegacyScript.StatusFor | script.js:113-117 | the final message is a success exactly when some unique row was found |
| LegacyScript.HasName | script.js:24 | `some(f => f.name === name)` holds exactly when some file has that name |
| LegacyScript.AddFilesProperties | script.js:19-31 | the old list is a prefix; what is appended is a subsequence of the offered files, in their order, each a PDF whose name was not already selected; every offered PDF's name ends up in the list, and names stay distinct |
| LegacyScript.AddFilesOrigin | script.js:19-31 | the appended files are offered PDFs not already selected by name, in the order offered |
| LegacyScript.SpliceOne | script.js:57 | `splice(index, 1)` removes the element at `index`, counting from the end for negative indexes; it removes the first element below `-length`, and nothing at or past the end |
| LegacyScript.RemoveAtKeepsUnique | script.js:56-60 | dropping one file keeps names distinct |
| LegacyScript.RemoveKeepsUnique | script.js:56-60 | `removeFile` keeps names distinct for every index |
| LegacyScript.Session.constructor | script.js:1-2 | the page starts with no files, no rows and no message |
| LegacyScript.Session.HandleFileSelection | script.js:19-31 | the selection becomes the old one plus the new PDFs not already present by name, and stays valid |
| LegacyScript.Session.RemoveFile | script.js:56-60 | the selection loses exactly the element `splice(index, 1)` removes, and stays valid |
| LegacyScript.Session.ConvertFiles | script.js:67-118 | the selection is untouched and stays valid; with no files nothing changes; otherwise the rows are the deduplicated rows of the successful files and the message reports the counts |

## Left out

- Reading PDFs with PDF.js is not modelled. This covers the worker set-up, `maxPages`, the load timeout and its `Promise.race`, and per-page error skipping. A file carries the page text or the error message instead.
- The page text is taken as already joined. How `pdfProcessor.js` and `script.js` join pages with `' '` and `'\n'` is not modelled.
- The regular-expression engine is a parameter. `lastIndex` and the actual matching of the three built-in patterns and the `script.js` pattern are not modelled. The patterns appear as their source text only.
- `parseInt` and `parseFloat` give exact unbounded values here; exponents, `Infinity` and binary floating point are not modelled. The model agrees with JavaScript only for quantities below 2^53 and for prices with at most two decimals whose value stays below 2^46 (70368744177664, about 7×10^13).
  - For values from 2^46 up to 2^53 hundredths, neighbouring doubles are 1/64 or more apart, so `parseFloat` can land more than half a hundredth away and `toFixed(2)` (`pdfProcessor.js:197`, `script.js:170`) then prints a neighbouring hundredth. For example, `70368744177664.01` is read as 70368744177664.015625 and printed as `70368744177664.02`, where the model keeps `.01`. `JsNumber.TwoDecimalsExact`, `Extraction.ExtractedPriceExact` and `LegacyScript.MatchRowValues` hold for the exact model only, and the difference reaches the dedup key, the `script.js` triple and the export.
  - The quantity and price captures (`pdfProcessor.js:131-135`, `script.js:150`) match digit strings of any length, so larger values occur.
  - Above 2^53, `parseInt` and `parseFloat` round to a double where the model keeps every digit.
  - From 1e21 up, `String(n)` and `toFixed(2)` give exponent form such as `1e+21`, where the model prints every digit.
  - A long enough quantity gives `Infinity`, which `Number.isInteger` rejects (`pdfProcessor.js:237`), but the model keeps such an item. A long enough price gives `Infinity` in JavaScript and an exact value in the model. Basic mode has no upper bound, so these items reach the dedup key and the export.
- JsNumber.RoundToCents: rounds the exact decimal half away from zero. `toFixed(2)` rounds the binary double instead, so a pattern 2 capture (`pdfProcessor.js:135`, `\d+\.?\d*`) with three or more decimals can round differently. For example, `1.005` is stored as 1.00 by JavaScript but as 1.01 by the model, and `2.675` as 2.67 against 2.68. The dedup key and the exported price of such an item differ accordingly.
- Case mapping covers ASCII letters only; `toUpperCase` and `toLowerCase` also map other letters. String lengths count Unicode scalar values, not UTF-16 code units.
- `pdfProcessor.js` wraps each match in `try`/`catch`. That `catch` is not modelled, because no modelled operation there can throw.
- `batchProcessPDFs` does not take null entries in the file list; a file is always present.
- The `onProgress` callback is optional in the source, and an exception thrown from it is not modelled. The model returns the sequence of calls it would receive.
- Within a chunk, `errors` and the progress calls are in submission order. In the source they follow the order in which the files finish.
- `JSON.stringify` output is not modelled. The JSON branch returns the items it would serialise.
- Console logging, DOM updates, `updateProgress`, `createExcelFile` and the intermediate status messages are not modelled. Only the final message of `convertFiles` is.
- `translator.js`, `ui.js`, `main.js`, `excelExporter.js`, `java.js`, `frontend/java.js` and the Java backend are not part of this model.
- Extraction.ParseTextForItems: the text is a parameter of type `Option<string>`, so values that are not strings are one case (`None`).
- Batch.BatchProcessPDFs: requires a concurrency of at least 1. With 0, the source's chunk loop never advances.
- Export.ExportData: takes the format as an argument. The default `format = 'json'` (`pdfProcessor.js:367`) is not a separate case; a call with no format is `ExportData(items, "json")`.
- LegacyScript.Session.ConvertFiles: the conversion is taken as one atomic step over a fixed selection. In the source, `convertFiles` is `async` and only `convertBtn` is disabled (`script.js:77`). `removeFile` or `handleFileSelection` can therefore change `selectedFiles` between the `await`s of the loop (`script.js:82-85`), which changes which files are processed and the total shown at `script.js:104`. That interleaving is not modelled.
