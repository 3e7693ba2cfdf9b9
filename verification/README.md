# jobcrawler record pipeline in Dafny

This project models how `main.go` of jobcrawler turns IBM careers search pages into CSV rows.

- **Pages.** It requests `https://www.ibm.com/careers/search?p=1`, then `p=2`, `p=3` and so on, until a page's "next" link is disabled.
- **Listings.** On each page, every job card is run through `extractJobInfo`. That function reads the heading, the `<br/>`-separated level/location block and the link.
- **Rows.** A job whose title, location and link are all non-empty becomes a five-field row of `ibm_jobs.csv`. Other jobs are skipped.
- **Cloud.** The file is then uploaded to Cloud Storage and loaded into BigQuery.

The modules, in dependency order:

- `Wrappers`: `Option` and `Result`.
- `GoStrings`: Go's `strings.Index`, `Split`, `Join` and `TrimSpace` (with `unicode.IsSpace`).
- `Decimal`: `%d` formatting of page numbers.
- `Extract`: the `Job` record and `extractJobInfo`, with its four errors.
- `Rows`: which listings become rows, and the row of a job.
- `Pagination`: the page loop as a function of what the browser answered for each page. It also models fatal errors: a failed header write, a browser failure, and a failed row write, given as the number of the write that fails.
- `Scrape`: the same loops written as `while` loops, proved equal to `Pagination.Crawl`.
- `Utf8`, `CsvOutput`, `BufferedWriter`, `CsvWriter`, `CsvFile`: the bytes Go's `encoding/csv` writer produces, and how they pass through its 4096-byte `bufio.Writer` buffer. These modules show what the file holds at the moment it is uploaded.
- `Program`: `main` with the flush moved before the upload, including `uploadFileToGCS` and `loadCSVFromGCS`. The file as the code uploads it is `CsvFile.FileAtUploadAsWritten`. The file system and the cloud services are inputs: each step's success or failure is given.

Behaviours of the code worth knowing, all of which the model keeps:

- **Four extraction errors.** `extractJobInfo` fails in four cases, checked in this order: unparsable HTML, an inner-HTML error, a missing link, and no `<br/>` (main.go:116-135; `Extract.ExtractJobInfoSpec`).
- **More than two segments are accepted.** The copy block needs at least one `<br/>`. Anything after a second `<br/>` is ignored (main.go:132-137; `Extract.ExtractIgnoresLaterSegments`).
- **Skipped listings are not counted.** A listing that fails extraction is logged and passed over; an extracted job with an empty title, location or link is passed over silently. `totalItems` counts only the rows written (main.go:74-83; `Rows.SkippedListing`).
- **A failed row write is fatal.** A row that cannot be written ends the run through `log.Fatalf` (main.go:79-81; `Pagination.CrawlAbortsOnWriteFailure`).
- **Fields with commas are quoted.** A location such as `Austin, TX` is written between double quotes, as Go's CSV writer does for any field holding a comma (main.go:79; `CsvWriter.CommaFieldIsQuoted`).
- **The file is not flushed before the upload.** The flush is deferred to the end of `main` (main.go:40), and the upload comes first (main.go:98; see Findings).

## Model

| member | source | states |
|---|---|---|
| GoStrings.SplitSpec | main.go:132 | `strings.Split` gives at least one piece, gives two or more exactly when the separator occurs, and no piece contains the separator |
| GoStrings.IndexOf | main.go:132 | `strings.Index`, which `strings.Split` uses to find each separator: a non-negative result is an occurrence, no occurrence comes before it, and the result is -1 exactly when the separator does not occur |
| GoStrings.JoinSplit | main.go:132 | joining the pieces of a split with the separator gives back the original text, so splitting loses nothing |
| GoStrings.SplitJoin | main.go:132 | splitting a join of separator-free pieces gives back the pieces, when the separator's first character does not recur in it (true of `<br/>`) |
| GoStrings.TrimLeftSpec | main.go:136-140 | the left trim drops a prefix made only of white space and stops at the first non-space character |
| GoStrings.TrimRightSpec | main.go:136-140 | the right trim drops a suffix made only of white space and stops at the last non-space character |
| GoStrings.TrimSpaceSpec | main.go:136-140 | `strings.TrimSpace` never lengthens its input, its result neither starts nor ends with white space, and the result is empty iff the input is all white space |
| GoStrings.TrimSpaceOfPadded | main.go:136-140 | white space added around a text is removed again by trimming |
| GoStrings.TrimSpaceIdempotent | main.go:136-140 | trimming twice is trimming once |
| Decimal.FormatNat | main.go:91 | `%d` of a page number is a non-empty string of decimal digits with no leading zero |
| Decimal.ParseFormat | main.go:91 | reading back the decimal digits of a page number gives that number |
| Decimal.FormatInjective | main.go:91 | different page numbers are printed differently |
| Extract.ExtractJobInfoSpec | main.go:116-147 | each of the four errors happens exactly in its own case, checked in source order: parse, inner HTML, missing link, no `<br/>`. On success the title is the trimmed heading, the link is kept as found and the description is the placeholder text |
| Extract.SplitSegments | main.go:132-135 | when the copy block contains `<br/>`, its split has at least two pieces, and these are the text before the first `<br/>` and the text between it and the next one |
| Extract.ExtractSegments | main.go:132-145 | on success the experience level is the trimmed first segment and the location the trimmed second segment |
| Extract.ExtractFromPieces | main.go:127-145 | extraction from a rendered copy block depends only on the first two pieces of its split, and on whether the link exists |
| Extract.ExtractTwoSegments | main.go:132-145 | a card whose copy block is `level<br/>location` yields the trimmed heading, location and level, and the link as found |
| Extract.ExtractIgnoresLaterSegments | main.go:132-137 | appending `<br/>` and further text to a two-segment copy block changes nothing in the result |
| Rows.HeaderNamesColumns | main.go:42-79 | the header names the columns in the order the rows fill them |
| Rows.ToRow | main.go:79 | cell `i` of a job's row holds the job field that header cell `i` names |
| Rows.RowFor | main.go:72-83 | a listing yields a row only if the row has five fields, a non-empty title, location and link, and the placeholder description |
| Rows.RowForIff | main.go:72-83 | a listing is written exactly when its card parsed, its copy block rendered and contains `<br/>`, its link is present and non-empty, and neither its heading nor its second segment is blank. The experience level plays no part |
| Rows.RowContents | main.go:73-79 | a written row holds the trimmed heading, the trimmed text after the first `<br/>`, the placeholder description, the trimmed text before that `<br/>`, and the link exactly as found |
| Rows.CardRow | main.go:73-79 | a card with copy block `level<br/>location`, a heading and location that are not blank, and a non-empty link is written as the row `[title, location, "to be implemented", level, link]` of its trimmed texts |
| Rows.PageRowsWellFormed | main.go:72-84 | a page yields at most one row per listing, and every row it yields is well formed |
| Rows.PageRowsAppend | main.go:72-84 | the rows of consecutive listings are the rows of each part, in order |
| Rows.SkippedListing | main.go:74-77 | a listing that yields no row leaves no trace, and processing goes on with the next one |
| Rows.WrittenListing | main.go:78-83 | a listing that yields a row contributes exactly that row, in its place |
| Pagination.StartUrlIsPageOne | main.go:50-91 | the starting address is the address the loop would build for page 1 |
| Pagination.PageUrlInjective | main.go:90-91 | different pages have different addresses, so no page is requested twice |
| Pagination.WriteRowsSpec | main.go:72-84 | writing a page's rows appends them and counts them one by one. If write number `f` fails, exactly the rows before it are written and counted, and the page ends there |
| Pagination.StepLoaded | main.go:56-91 | one loaded page whose writes succeed: its address is recorded and its rows appended. Then the loop stops if "next" is disabled, and otherwise moves to the next page number and address |
| Pagination.RunRenderFails | main.go:59-70 | a browser failure ends the crawl after the page is requested, before any of its listings |
| Pagination.RunWriteFails | main.go:79-81 | a failing write ends the crawl on its page, with the rows before it written |
| Pagination.RunThrough | main.go:55-92 | after `k` pages that render with an enabled "next" link and whose writes succeed, pages 1 to `k` have been requested in order, all their rows have been written and counted, and page `k + 1` is next |
| Pagination.CrawlCompletes | main.go:42-93 | when page `k + 1` is the first with a disabled "next" link and nothing fails, the crawl completes after requesting exactly pages 1 to `k + 1`, with all their rows written and `totalItems` equal to the number of rows |
| Pagination.CrawlAbortsOnRenderFailure | main.go:59-70 | a browser failure on page `k + 1` is fatal: pages 1 to `k + 1` are requested, only the rows of pages 1 to `k` are written, and no later page is requested |
| Pagination.CrawlAbortsOnWriteFailure | main.go:79-81 | a failed row write is fatal, not skipped: the run stops on that page, with exactly the rows before the failing write written |
| Pagination.CrawlHasNoPageCap | main.go:55-92 | there is no page limit: while pages render with an enabled "next" link and writes succeed, the crawl has not ended, whatever the number of pages |
| Scrape.WritePage | main.go:72-84 | the inner `for` loop over a page's listings computes `WriteRows` of the page's rows |
| Scrape.Scrape | main.go:42-92 | the header write and the outer `for` loop together compute `Crawl` |
| CsvOutput.DoubleQuotes | main.go:79 | doubling quotes at least keeps, and at most doubles, the length of a field |
| CsvOutput.UndoubleDouble | main.go:79 | un-doubling the quotes of a field with doubled quotes gives back the field |
| CsvOutput.DecodeEncodeField | main.go:79 | every field, quoted or not, is read back from the CSV as it was written |
| CsvOutput.EncodeFields | main.go:79 | each field of a record is encoded on its own, in place |
| CsvOutput.EncodeRecord | main.go:79 | every record ends with a line feed |
| CsvOutput.PlainRecordSplits | main.go:79 | a record of plain fields splits back into its fields at the commas |
| CsvOutput.RecordLength | main.go:42 | a record whose fields have at most `m` characters each takes at most `\|row\| * (2m + 3) + 1` characters |
| CsvWriter.CommaFieldIsQuoted | main.go:79 | a field holding a comma, such as the location `Austin, TX`, is written between quotes |
| CsvWriter.QuotedCallsSpell | main.go:79 | the writes of a quoted field spell out its quoted text |
| CsvWriter.InterleaveSpell | main.go:79 | field writes separated by comma writes spell out the fields joined by commas |
| CsvWriter.RecordCallsSpell | main.go:79 | the writes of one record spell out that record's CSV text |
| CsvWriter.FileCallsSpell | main.go:42-79 | the writes the CSV writer issues for the header and all rows spell out the whole CSV text |
| BufferedWriter.WriteString | main.go:39 | buffered string writes keep every byte, in order. Nothing reaches the file until more than 4096 bytes have been written, and a short write leaves the buffer non-empty |
| BufferedWriter.WriteByte | main.go:39 | a buffered byte write keeps every byte, leaves the buffer non-empty, and hands nothing to the file while the total fits in the buffer |
| BufferedWriter.Flush | main.go:40 | a flush hands everything written to the file and empties the buffer |
| Utf8.EncodeChar | main.go:79 | a character is written as one to four UTF-8 bytes, and as one byte exactly when it is ASCII |
| Utf8.DecodeEncodeChar | main.go:79 | decoding a character's UTF-8 bytes gives the character back, so no two characters are written alike |
| Utf8.Encode | main.go:79 | a string of `n` characters is written as between `n` and `4n` bytes |
| Utf8.EncodeAppend | main.go:79 | the bytes of two strings written one after the other are the bytes of their concatenation |
| CsvFile.Perform | main.go:39 | one write call adds exactly its UTF-8 bytes to what has been written |
| CsvFile.PerformAll | main.go:42-79 | the writes of the header and rows add exactly the UTF-8 bytes of their text, and nothing reaches the file before the buffer overflows |
| CsvFile.Buffered | main.go:39-82 | after the header and rows are written, everything written is the CSV's bytes, yet part of it still waits in the buffer, and none of it has reached the file when it fits in 4096 bytes |
| CsvFile.UploadMissesTail | main.go:40-98 | the file as the upload reads it is a proper prefix of the CSV, and empty when the CSV is at most 4096 bytes long |
| CsvFile.NoRowsUploadsNothing | main.go:40-98 | a run that writes no job rows uploads an empty object, although the CSV holds the header line |
| CsvFile.FlushedFile | main.go:40 | once flushed, the file is the whole CSV: header and rows |
| Program.LoadSkipsHeader | main.go:176-183 | the one leading row BigQuery skips is exactly the header, so the table gets the job rows and nothing else |
| Program.UploadFile | main.go:149-174 | each of the four upload errors happens exactly when its step is the first to fail, and there is no error exactly when every step succeeds |
| Program.LoadCsv | main.go:176-200 | the three load failure points give three distinct errors, each exactly when its step is the first to fail, and there is no error exactly when all three succeed |
| Program.MainLoadsCompletedCrawl | main.go:93-113 | data reaches BigQuery only after a completed crawl, and then it is the full CSV of the header and every written row, loaded with one leading row skipped |
| Program.MainSkipsCloudUnlessCompleted | main.go:59-99 | a crawl that ends in a fatal error never reaches the cloud: the answers of the upload and the load play no part in how `main` ends |
| Program.MainSucceeds | main.go:25-113 | a completed crawl followed by a successful upload, client creation, load and file close ends with the full CSV imported |

## Left out

- The browser (chromedp) is not modelled. What it answered for each page is an input `PageResult`: a failure, or the job cards' HTML and the "next"-disabled flag.
- goquery's HTML parsing and selector queries are not modelled. A card is given by what the queries answered: parse failure, heading text, inner HTML or its error, and the `href` if present.
- `log.Printf` and `log.Println` output is left out. It has no effect on the data.
- How a `log.Fatalf` exits is left out. `log.Fatalf` calls `os.Exit`, which skips every deferred call, including `writer.Flush()` and `file.Close()`. The model records only that the run failed, and why.
- The file system and the cloud clients are not modelled. Their success or failure at each step is an input (`Program.Environment`).
- Project, dataset and table names of the load are left out. Only the `gs://` address, delimiter, skipped rows and append mode are modelled.
- Write failures are not derived. Go's `csv.Writer.Write` fails only when its buffer fails to reach the file. The model takes the number of the first failing write as an input (`fault`) instead of deriving it from the buffer.
- Sticky errors of `bufio.Writer` (after one failure every later write fails) are not modelled, because the first failure already ends the run.
- Go `int` overflow of `totalItems` and `pageNumber` is not modelled. They are unbounded naturals; overflow would need more than 2^63 rows or pages.
- Strings are sequences of Unicode scalar values. Go strings holding invalid UTF-8 and their byte-level treatment are not modelled.
- `csv.Writer` settings other than the defaults `main` uses (`Comma` ',', `UseCRLF` false) are not modelled.
- `BufferedWriter.WriteString` models bufio's forwarding of a write larger than the free space, made while the buffer is empty: the text goes straight to the file's own `WriteString`, as `*os.File` provides one. Without that forwarding, part of such a write would stay in the buffer. The file would then hold less at the upload, but still a proper prefix of the CSV. `io.ReaderFrom` plays no part in `WriteString` and is not modelled.
- `Program.Main` uses the corrected, flushed file (see Findings). The file as uploaded by the code is modelled separately, as `CsvFile.FileAtUploadAsWritten`.

## Findings

| source | as written | input that shows it | evidently intended | confidence | as-written member | corrected member |
|---|---|---|---|---|---|---|
| main.go:40-98 | `writer.Flush()` is deferred to the end of `main`, but `main` uploads `ibm_jobs.csv` before it returns. The upload reads only what the 4096-byte buffer has already handed to the file, a proper prefix of the CSV (`CsvFile.UploadMissesTail`) | a crawl whose first page has a disabled "next" link and no complete job cards: the file holds only the header line, and the uploaded object is empty (`CsvFile.NoRowsUploadsNothing`) | flush the CSV writer before the upload, so the uploaded object is the whole CSV | high; not executed | CsvFile.FileAtUploadAsWritten | CsvFile.FlushedFile |
