# A verified model of the product-pricing scraper

`parser.php` reads a file of product links line by line. It removes `"\n"`
from each line and keeps the lines that pass URL validation. Every ten kept
links form a chunk for `processLinksChunk`, which downloads the pages
concurrently and extracts one record from each usable page: price, name,
SKU, UPC and quantity. The records are written to a spreadsheet below a
header row, and a row cursor moves past them. The links left over when the
input ends form one more chunk.

The model has six modules:

- `Strings` (`strings.dfy`). Removing newlines, and the two regular
  expressions the script uses:
  - `([\d,.]+)` for the price;
  - ` (\d+)/\w+` for the pack size in a product name.

  Each expression is given twice: as a leftmost-match scan, and as a
  predicate saying what the expression means. Lemmas prove the two agree.
- `Dom` (`dom.dfy`). The page as the scraper sees it through the Crawler.
  This covers:
  - the eight selector constants;
  - the texts of the nodes each selector matches;
  - `count()`;
  - `text()`, which throws on an empty node list.

  Failures are values (`Outcome`), not exceptions.
- `Fields` (`fields.dfy`). `checkUpcAvailable`, `getPrice` and `getQty`.
- `Extraction` (`extraction.dfy`). The body loop of `processLinksChunk`.
  An empty body is skipped. Otherwise the page is classified:
  - extracted, giving one record;
  - rejected, when a `LogicException` is caught, reported as a product with
    different HTML or as a captcha page;
  - fatal, when `getPrice` returns null. PHP then raises a `TypeError`,
    which no `catch` handles, so the chunk's promise fails.

  `ProcessBodies` is the loop itself, proved equal to the reference
  function `Harvest`.
- `Sheets` (`sheet.dfy`). The header row, and `writeToSheet`'s cell loop on a
  `Spreadsheet` class. Each cell is addressed by a (row, column) pair in a
  map.
- `Driver` (`driver.dfy`). The top-level loop:
  - the link buffer;
  - the chunk every ten links;
  - the row cursor;
  - the leftover chunk.

  It is proved against reference functions:
  - `ValidLinks`, the kept links;
  - `FullChunks` and `Remainder`, the reference partition into tens;
  - `Calls`, the chunks that `processLinksChunk` receives, in order;
  - `Delivered`, the records that reach the sheet.

Three things are parameters of the model:

- URL validation is the predicate `isValid`.
- The network is `fetch(k, links)`: the bodies that the k-th call of
  `processLinksChunk` managed to download for `links`, in whatever order the
  requests settled.
- The input file is the sequence `lines` of what `fgets` returned. A final
  `false` read at end of file counts as the empty line, which is never a
  valid URL.

## Model

| member | source | states |
|---|---|---|
| Strings.StripNewlinesSpec | parser.php:44 | The result has no `"\n"`. A line without one is unchanged. Every other character keeps its number of occurrences, so the length drops by the number of newlines. |
| Strings.StripNewlinesAppend | parser.php:44 | Stripping a concatenation strips each part and concatenates the results, so the kept characters stay in their original order. |
| Strings.StripNewlinesDropsTerminator | parser.php:44 | A line as `fgets` returns it, text without a newline followed by `"\n"`, strips to exactly that text. |
| Strings.PriceToken | parser.php:187-189 | There is no token exactly when the text has no digit, comma or dot. A token is non-empty, made only of `[\d,.]`, and never contains `/`. |
| Strings.PriceTokenIsMatch | parser.php:187-189 | Given the leftmost, longest match of `([\d,.]+)` from `i` to `j`, the token is exactly `s[i..j]`. |
| Strings.PriceTokenMatches | parser.php:187-189 | Every token the scan returns is such a leftmost, longest match. |
| Strings.QtyMatchAtMeansPattern | parser.php:177 | ` (\d+)/\w+` matches at a position exactly when the greedy check there succeeds. The group then ends where the digit run ends, so backtracking never finds another match. |
| Strings.FindQtyMatch | parser.php:177 | The search returns a position where the pattern matches with no match before it, or nothing when no position matches. |
| Strings.QtyGroup | parser.php:177-178 | A captured group is a non-empty string of decimal digits. |
| Strings.QtyGroupIsLeftmostMatch | parser.php:177-178 | The capture is the digit group of the leftmost occurrence of the pattern. |
| Strings.QtyGroupNoneIffNoMatch | parser.php:177-178 | Nothing is captured exactly when the pattern occurs nowhere in the name. |
| Dom.QtySelectorsAreFirstSpan | parser.php:16-19 | Both quantity selectors are the same text as SELECTOR_PRICE_V1. |
| Dom.CanonicalKeepsCss | parser.php:15-22 | The selector a document is indexed by has the same CSS text as the selector queried, so a query returns what the real selector matches. |
| Fields.CheckUpcAvailable | parser.php:159-162 | The result is true exactly when reading the UPC element's text cannot throw. That text is then the first UPC node's text. |
| Fields.GetPrice | parser.php:181-197 | A returned price never contains `/`. With two spans it is the first span's text verbatim, and it succeeds exactly when that span exists and has no `/`. Otherwise it is the paragraph's leftmost `[\d,.]+` run, and it succeeds exactly when the paragraph exists and has such a run. The `/` rejection happens only with two spans. The null return, a TypeError, happens exactly when the paragraph exists but has no such run. |
| Fields.QtyFromName | parser.php:176-178 | The quantity from the name rule is always a non-empty string of decimal digits. |
| Fields.QtyFromNameLeftmost | parser.php:176-178 | At the leftmost occurrence of ` <digits>/<word>`, the result is its digit group. |
| Fields.QtyFromNameDefault | parser.php:176-178 | With no occurrence, the result is "1". |
| Fields.GetQty | parser.php:164-179 | It succeeds exactly when the first pricing span exists, in both layouts, and otherwise throws the empty-node-list error. The result is a numeral. A raw text of `/Each` gives "1", whatever the name. Any other raw text gives the name rule's result. |
| Fields.TwoSpanQtyFromName | parser.php:164-197 | In the two-span layout an accepted price rules out `/Each`, so the quantity always comes from the name. |
| Extraction.ExtractSpec | parser.php:133-150 | A page gives a record exactly when name, SKU and first span are present and the price is acceptable for its layout. It is fatal exactly when the name is present and, outside the two-span layout, the paragraph exists but has no `[\d,.]`. Otherwise it is rejected, as a captcha exactly when the name is missing, and else reporting the name. The record's fields are the name, the SKU, the layout's price, the UPC or `-`, and the `/Each`-or-name quantity. |
| Extraction.Yield | parser.php:127-143 | A body gives at most one record, none when it is empty. A record comes exactly when extraction succeeds, and it is the extracted record. |
| Extraction.YieldOfNonEmpty | parser.php:128-143 | A non-empty body gives its record when extracted, nothing otherwise, and is fatal exactly when its extraction is. |
| Extraction.FatalBodyCrashes | parser.php:125-155 | A fatal body makes its chunk crash. |
| Extraction.CrashHasFatalBody | parser.php:125-155 | A crashing chunk has a fatal body. |
| Extraction.CrashesIffFatalBody | parser.php:125-155 | A chunk crashes exactly when one of its bodies is fatal. |
| Extraction.PrefixStep | parser.php:127-153 | One more body appends its own yield to the records and its own fatality to the crash flag. |
| Extraction.RecordsAppend | parser.php:125-155 | Bodies are independent: the records of two stretches of bodies are the first stretch's records followed by the second's. |
| Extraction.SkippedBodyContributesNothing | parser.php:127-150 | An empty or rejected body contributes no record and does not stop the bodies after it. |
| Extraction.RecordsBound | parser.php:125-155 | A chunk gives at most one record per body. |
| Extraction.RecordsComeFromBodies | parser.php:125-155 | Every record is the extraction of some non-empty body of the chunk, so its price has no `/` and its quantity is a numeral. |
| Extraction.ExtractedBodyDelivered | parser.php:125-155 | Every non-empty body that extracts gives its record to the chunk. |
| Extraction.ProcessBodies | parser.php:125-155 | The loop over the bodies returns `Harvest` of them: the records in body order, or the crash of the whole chunk. |
| Sheets.WrittenCell | parser.php:212-221 | Record k lands in row `rowIndex + k`, in columns 1 to 5 in the order price, name, sku, upc, qty. No other cell changes. |
| Sheets.WrittenConcat | parser.php:212-221 | Writing two batches, the second starting where the first ended, is writing their concatenation. |
| Sheets.HeaderKept | parser.php:26-29 | Writing data from row 2 never changes the header row. |
| Sheets.Spreadsheet.constructor | parser.php:24-28 | A new sheet holds exactly the header row. |
| Sheets.Spreadsheet.SetCellValueByColumnAndRow | parser.php:215-219 | Setting one cell changes that cell and no other. |
| Sheets.Spreadsheet.WriteToSheet | parser.php:212-221 | The loop leaves the sheet as `Written` of its old cells, which `Sheets.WrittenCell` describes cell by cell. |
| Driver.Stripped | parser.php:44 | Each line with its newlines removed, one per line. |
| Driver.ValidLinks | parser.php:44-47 | Every kept link is accepted by the validator and has no newline. No more links are kept than lines are read. |
| Driver.ValidLinksStep | parser.php:44-47 | Reading one more line appends its stripped text exactly when the validator accepts it. |
| Driver.ValidLinksPrefix | parser.php:43-47 | What has been kept after some of the lines is a prefix of what is kept after all of them. |
| Driver.ValidLinksMultiplicity | parser.php:44-47 | A valid link is kept as many times as lines strip to it, so duplicates survive. An invalid one is never kept. |
| Driver.ValidLinksMembership | parser.php:44-47 | A link is kept exactly when it is valid and some line strips to it. |
| Driver.FullChunks | parser.php:48 | Every chunk of the reference partition has exactly ten links. |
| Driver.Remainder | parser.php:74 | The links left over are fewer than ten. |
| Driver.SplitRecombines | parser.php:43-74 | The full chunks followed by the leftover links give back the links in order. |
| Driver.SplitUnique | parser.php:43-74 | Any split into chunks of ten plus fewer than ten leftover links is the reference partition. |
| Driver.ChunkCount | parser.php:43-74 | There are n / 10 full chunks and n % 10 leftover links, so ceil(n / 10) calls in all. |
| Driver.SplitSnoc | parser.php:45-65 | One more valid link either completes the buffer, which becomes the next chunk and is emptied, or just extends the buffer. |
| Driver.FullChunksPrefix | parser.php:43-71 | More input never changes a chunk already formed. |
| Driver.ChunksOfValidLinks | parser.php:45-48 | The chunks of valid links hold only valid links. |
| Driver.ReadIsPartition | parser.php:43-71 | Reading line by line hands over exactly the full chunks of the valid links read so far, and buffers their remainder. |
| Driver.Calls | parser.php:43-93 | The calls of `processLinksChunk` begin with the full chunks. |
| Driver.CallsPartition | parser.php:43-93 | Every call inside the loop gets exactly ten links. The call after it, if any, gets one to nine. Together they get every valid link once, in input order. |
| Driver.CallsHoldInputLinks | parser.php:43-93 | No chunk gets a link that the validator rejects or that no input line strips to. |
| Driver.DeliveredStep | parser.php:52-54 | Each call adds exactly its own records, none when it crashed. |
| Driver.DeliveredComesFromBodies | parser.php:52-54 | Every record written came from some chunk that did not crash, so its price has no `/` and its quantity is a numeral. |
| Driver.DeliveredWithoutCrash | parser.php:52-54 | When no chunk crashed, each chunk contributes exactly its chunk's records. |
| Driver.ProcessLinksChunk | parser.php:102-157 | A call resolves to `Harvest` of the bodies the network delivered for its links. |
| Driver.ProcessAndWrite | parser.php:52-53 | The chunk's records are written starting at the cursor, after everything written before. Nothing is written when the chunk crashes. |
| Driver.ReadLine | parser.php:44-69 | One pass of the loop body makes one step of the reference reading `Push`. When a chunk completes, its result is recorded. If it did not crash, its records are written at the cursor and the cursor moves past exactly them. |
| Driver.ReadAndProcess | parser.php:43-71 | The loop reads all lines or stops at the first crashing chunk. It records the chunks of the reference reading and what each call resolved to. It leaves the sheet holding the delivered records and the cursor just past them. |
| Driver.LoopPartition | parser.php:43-71 | The chunks handed over by the loop come first among the calls. When no chunk crashed, they are all the full chunks, and the buffer holds the remainder. |
| Driver.ProcessLeftover | parser.php:74-93 | The leftover links become one more call, whose records are written at the cursor unless it crashes. |
| Driver.Run | parser.php:43-93 | The chunks processed are a prefix of `Calls` of the valid links, and all of them when the run completes. The run completes exactly when no chunk crashes. Otherwise the last processed chunk crashed and none before it did. The sheet holds the header and the delivered records in call order, from row 2. After a completed run the cursor stands just past the records of the in-loop chunks. |

## Left out

- HTTP fetching, and the concurrency and ordering of `any()` and `wait()` (parser.php:102-123). The bodies that arrive in a chunk, and their order, are the parameter `fetch`. A request that fails just has no body in it.
- CSS selector evaluation, HTML parsing and the whitespace handling of `text()` in Symfony's Crawler. They belong to a foreign library. A document is the list of node texts each distinct selector text matches.
- `filter_var(..., FILTER_VALIDATE_URL)`. It is a foreign validator, modelled as the predicate `isValid`.
- Xlsx serialisation and `save` (parser.php:223-226), `getopt` and `die` (parser.php:32-37), `fopen`, `feof`, `fgets` and `fclose`. They are file and process I/O. The input is a sequence of lines.
- `echo` logging, `time`, `memory_get_usage`, `usleep(rand(...))` and the `gc_*` calls (parser.php:50, 56-63, 67-70, 76-84, 91-92). They have no effect on the links, records or sheet.
- `makeHeaders` (parser.php:199-210). It only builds request headers.
- The log lines for rejected pages. They are kept only as the `Diagnostic` value of a rejection.
- PHP byte strings are modelled as `seq<char>`. Every character the code inspects (`\d`, `\w`, `[\d,.]`, `/`, `"/Each"`, `"\n"`) is ASCII, and UTF-8 is self-synchronising, so no byte-level behaviour is lost.
- PhpSpreadsheet's value binding. A cell holds the string it was given; type guessing on numeric strings is not modelled.
- Driver.Run: says nothing about the cursor after a crashed run, because the uncaught error ends the script there.
- Driver.ReadLine: after a crash it states only the chunks. The buffer is left as it was, because the script stops before `$links = []`.
- Sheets.Spreadsheet.constructor: models `new Spreadsheet()` together with the `fromArray` call that writes the header.

## Behaviour worth knowing

These points depart from the obvious reading of the selector names, the exception messages and the log lines. The model follows the code.

- Outside the two-span layout, a price paragraph such as `12.00/Each` is not rejected. `getPrice` keeps only the leftmost `[\d,.]+` run, here `12.00`, and that run contains no `/`. The `/` check can fire only in the two-span layout. This is stated in `Fields.GetPrice`.
- A price paragraph without any digit, comma or dot makes `getPrice` return null. The resulting `TypeError` is not a `LogicException`, so it is not caught per page. It fails the whole chunk and, through `wait`, ends the script. The model treats this as a crash of the chunk: its records are lost and no later chunk runs (`Extraction.ExtractSpec`, `Driver.Run`).
- Both quantity selectors equal the first-span price selector. In the two-span layout the raw quantity is therefore the price span. The `/Each` shortcut can fire there only for a price containing `/`, which `getPrice` has already rejected (`Fields.TwoSpanQtyFromName`).
- A missing UPC and a UPC whose text is `-` both give `-` in the record.
- After the leftover chunk is written, the row cursor is not advanced (parser.php:88-89). Nothing reads it afterwards.
