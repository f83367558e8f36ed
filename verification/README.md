# Batch image optimizer — Dafny model

This project models the logic of a small batch image optimizer. The optimizer has two parts:

- **Optimize endpoint** (`POST /api/optimize`). It reads a multipart form with `file`, `preset` and `quality` fields, checks them, and hands the bytes to the image library. It asks for a resize to the preset's box unless the preset is `original`, and for JPEG output at the given quality. It answers with the file name, a `data:image/jpeg;base64,` URI, and the byte counts before and after.
- **Page** (the batch controller). It keeps the pending files, the results received, a progress label and a busy flag. It sends the files one at a time and skips any file whose request fails. It shows total and per-image savings. It packs the results into a ZIP whose entry names get a `.jpg` extension.

The image library (`sharp`) is a parameter, `OptimizeRoute.Codec`: a total function from one library call (input bytes, optional resize box, quality) to output bytes, or to None when it throws. The network is an oracle too. Each file's request either delivers the endpoint's answer or fails; `Batch.ProcessBatch` takes one outcome per file. `Batch.Receive` and `Batch.ProcessAgainstEndpoint` connect those outcomes to `OptimizeRoute.Handle`.

Modules: `Common` (Option, byte), `Decimal` (`String(n)`, `parseInt`), `Base64`, `DataUri` (the URI prefix and `split(",")`), `FileNames` (the `.jpg` rename), `OptimizeRoute`, `Results` (the client's result record and removal by name), `Savings`, `Batch`, `Archive`.

Three behaviours of the code worth noting, each modelled as written:
- Quality is not clamped to 1..100. The parsed integer goes to the encoder unchanged (`QualityPassedUnchanged`).
- The `original` preset is recognised by its name, not by its 0×0 box.
- An image the library cannot decode is not turned into a handled error response. The exception escapes the handler, which the model writes as `Crashed`.

## Model

| member | source | states |
|---|---|---|
| OptimizeRoute.PresetCatalog | app/api/optimize/route.js:4-9 | the catalog has exactly the keys instagram (1080×1080 cover), story (1080×1920 cover), twitter (1200×675 cover) and original (0×0 fill) |
| OptimizeRoute.PresetName | app/api/optimize/route.js:14 | an absent or empty field becomes `instagram`; a non-empty field is used as given |
| OptimizeRoute.Quality | app/api/optimize/route.js:15 | an absent or empty field reads as 80; any other text is read by `parseInt` |
| OptimizeRoute.Valid | app/api/optimize/route.js:17 | a request passes exactly when it has a file and its preset field is absent, empty or one of the four catalog keys |
| OptimizeRoute.FieldDefaults | app/api/optimize/route.js:14-15 | with `preset` and `quality` absent or empty, the library is asked to resize to 1080×1080 cover at quality 80 |
| OptimizeRoute.Plan | app/api/optimize/route.js:24-30 | the library gets the uploaded bytes; it gets no resize exactly when the preset is `original`, otherwise the catalog entry's width, height and fit; its quality is the parsed `quality` field, whatever that text is |
| OptimizeRoute.Handle | app/api/optimize/route.js:11-38 | 400 "Invalid input" exactly when the file is missing or the preset is not a catalog key; a crash exactly when the library throws on a valid request; otherwise a 200 echoing the file name, the data URI of the output, the input length and the output length |
| OptimizeRoute.RejectionIgnoresCodec | app/api/optimize/route.js:17-19 | a rejected request gets the same 400 whatever the image library would do, so the library is never reached |
| OptimizeRoute.UnknownPresetRejected | app/api/optimize/route.js:17-19 | the preset `bogus` is rejected with 400 even when a file is present |
| OptimizeRoute.QualityPassedUnchanged | app/api/optimize/route.js:15 | an integer quality written in decimal reaches the encoder unchanged, with no clamping (exact integers; see Left out) |
| OptimizeRoute.ValidRequestSucceeds | app/api/optimize/route.js:21-38 | a valid request whose library call succeeds is a 200 whose originalSize is the input length and whose newSize is the output length |
| Decimal.ParseInt | app/api/optimize/route.js:15 | `parseInt(s, 10)` is NaN exactly when no digit follows the optional sign |
| Decimal.IntToDecimal | app/page.jsx:52 | `String(q)` of an integer is non-empty, starting with `-` exactly for negative q and with a digit otherwise |
| Decimal.ParseIntOfIntToDecimal | app/page.jsx:52 | `parseInt(String(q), 10) == q` for every exact integer q (see Left out) |
| Decimal.ParseIntIgnoresTrailingText | app/api/optimize/route.js:15 | `parseInt` reads the digit run and ignores the text after it |
| Decimal.NatToDecimal | app/page.jsx:46 | the decimal spelling of a count is non-empty, all digits, and has no leading zero |
| Decimal.DigitsValueOfNatToDecimal | app/page.jsx:46 | the decimal spelling of n has value n |
| Base64.DecodeEncode | app/page.jsx:77-80 | decoding the base64 text of any byte sequence gives back that sequence |
| Base64.EncodeCharset | app/api/optimize/route.js:35 | base64 text holds only alphabet characters and `=`, so never a comma |
| Base64.Encode | app/api/optimize/route.js:35 | the base64 text of n bytes is 4·⌈n/3⌉ characters long |
| DataUri.JpegDataUri | app/api/optimize/route.js:35 | `processedImage` is `data:image/jpeg;base64,` followed by exactly the base64 text of the output bytes |
| DataUri.Split | app/page.jsx:77 | `split(",")` gives at least one piece, and no piece holds a comma |
| DataUri.JoinSplit | app/page.jsx:77 | joining the pieces of `split(",")` with commas gives the text back |
| DataUri.SecondField | app/page.jsx:77 | `split(",")[1]` is defined exactly when the text has a comma, and holds no comma |
| DataUri.PayloadOfJpegDataUri | app/page.jsx:77 | taking `split(",")[1]` of the endpoint's data URI gives exactly the base64 of the output bytes |
| FileNames.ExtensionDot | app/page.jsx:78 | finds the start of the `/\.[^/.]+$/` match exactly when there is one |
| FileNames.ExtensionDotUnique | app/page.jsx:78 | the pattern can match at one position at most |
| FileNames.ToJpgName | app/page.jsx:78 | a name with a final extension becomes its stem plus `.jpg`; a name without one is unchanged |
| FileNames.ToJpgNameKeepsStem | app/page.jsx:78 | everything before the extension's dot is kept |
| FileNames.ToJpgNameIdempotent | app/page.jsx:78 | renaming an already renamed name changes nothing |
| FileNames.ToJpgNameExamples | app/page.jsx:78 | `photo.png`→`photo.jpg`, `cat.jpeg`→`cat.jpg`, `archive.tar.gz`→`archive.tar.jpg`, `.hidden`→`.jpg` |
| FileNames.UnchangedNameExamples | app/page.jsx:78 | `README`, `name.` and `v1.2/photo` are left unchanged |
| Results.WithoutName | app/page.jsx:89 | the filter keeps exactly the elements whose name differs, all of them and only them |
| Results.WithoutNameLength | app/page.jsx:89 | the filter removes exactly as many elements as carry the name |
| Results.WithoutNameAppend | app/page.jsx:89 | the filter keeps the survivors' order, because it distributes over concatenation |
| Results.WithoutAbsentName | app/page.jsx:89 | removing a name no element carries changes nothing |
| Results.WithoutNameIdempotent | app/page.jsx:89 | removing the same name twice is removing it once |
| Results.WithoutUniqueName | app/page.jsx:89 | when one element carries the name, exactly that element goes |
| Savings.RoundHalfUp | app/page.jsx:112 | `Math.round` of an exact ratio is the nearest integer, with halves rounded up |
| Savings.SavedPercent | app/page.jsx:110-113 | the percentage is 0 when the original total is not positive, otherwise 100·saved/original rounded half up |
| Savings.SavedPercentBounds | app/page.jsx:110-113 | when nothing grew, the percentage is between 0 and 100 |
| Savings.SavedPercentExamples | app/page.jsx:110-113 | 1000→400 bytes is 60%; 3 of 1000 is 0%; 5 of 1000 is 1% |
| Savings.TotalOriginalSize | app/page.jsx:100-103 | the original total is 0 for no results and at least every result's own original size |
| Savings.TotalNewSize | app/page.jsx:104-107 | the new total is 0 for no results and at least every result's own new size |
| Savings.TotalSaved | app/page.jsx:108 | the saving never exceeds the original total, and is non-negative exactly when the new total is not larger |
| Savings.TotalSavedPercent | app/page.jsx:110-113 | 0 when the original total is 0, otherwise the integer within a half of 100·saved/original |
| Savings.NoneGrewTotals | app/page.jsx:100-108 | when no image grew, the new total is at most the original total |
| Savings.TotalSavedPercentBounds | app/page.jsx:100-113 | when no image grew, the saving is between 0 and the original total and the headline percentage between 0 and 100 |
| Savings.ReceivedResultBadge | app/page.jsx:62 | a result stored from the endpoint's answer always has a numeric badge, the rounded percentage saved on that image |
| Savings.TotalsAppend | app/page.jsx:100-107 | the totals add up over concatenated result lists |
| Savings.SingleItemTotals | app/page.jsx:100-113 | for one result, each total is its size with a missing size counted as 0, and when both sizes are present the total percentage equals its badge |
| Savings.ItemSavedPercent | app/page.jsx:296-302 | the badge is 0 when originalSize is missing or zero; it is NaN exactly when only newSize is missing |
| Batch.Select | app/page.jsx:25-29 | a selection replaces the pending files and empties the results and the label |
| Batch.ClearAll | app/page.jsx:225-229 | Clear All empties files, results and label |
| Batch.RemovePending | app/page.jsx:345-346 | removing a pending file drops every file with that name; nothing else changes |
| Batch.RemoveResult | app/page.jsx:88-90 | removeImage drops every result with that name; nothing else changes |
| Batch.RemoveOnlyResultWithName | app/page.jsx:88-90 | removing the one result with a name leaves N−1 results: the others, unchanged and in order |
| Batch.SelectDiscardsEarlierBatch | app/page.jsx:25-29 | outside a running batch, after a new selection or Clear All no earlier result is totalled or downloadable |
| Results.FromBody | app/page.jsx:62 | the stored result keeps the answer's file name and data URI, and both of its sizes are present |
| Batch.RequestFor | app/page.jsx:49-52 | the form carries the file itself; its quality reads back on the endpoint as the page's quality, its preset is the page's preset when non-empty, and it passes the endpoint's gate exactly when that preset is empty or a catalog key |
| Batch.ProgressLabelPosition | app/page.jsx:45-47 | the label starts with `Processing `, followed by a number that reads back as the file's 1-based position |
| Batch.ProgressLabelOf | app/page.jsx:45-47 | the position is followed by ` of ` |
| Batch.ProgressLabelTotal | app/page.jsx:45-47 | the number after ` of ` reads back as the number of files |
| Batch.ProgressLabelEndsWithName | app/page.jsx:45-47 | the label ends with the file's name |
| Batch.DoneLabelReadsBack | app/page.jsx:69 | the closing label starts with `Processed `, its number reads back as the count of attempted files, and it ends with ` images.` |
| Batch.Receive | app/page.jsx:54-65 | a file contributes a result exactly when its request completes with a success status, and the result is the answer's body |
| Batch.ProcessBatch | app/page.jsx:37-70 | with no files, nothing changes. Otherwise file i is sent with the label "Processing i+1 of N: name" and the earlier successes showing. Afterwards the results are the successes in order, the flag is off, the label is "Processed N images.", and successes plus failures add up to N |
| Batch.SuccessesCount | app/page.jsx:43-66 | successes plus failures equal the number of files, so results never outnumber files |
| Batch.SuccessesAppend | app/page.jsx:54-65 | a failed file does not end the batch: the results of consecutive runs concatenate |
| Batch.SuccessesMembers | app/page.jsx:62-63 | a result is kept exactly when some file's request produced it |
| Batch.SuccessesAllSucceed | app/page.jsx:43-66 | when every request succeeds, result i is file i's answer |
| Batch.ThreeFilesSecondFails | app/page.jsx:43-69 | three files with the second failing give the first and third results and the label "Processed 3 images." |
| Batch.OneFileAgainstEndpoint | app/page.jsx:49-63 | a file sent with a catalog preset that the library accepts comes back as a result with the file's name, its length and the output's length |
| Batch.ProcessAgainstEndpoint | app/page.jsx:43-66 | with a catalog preset, every request delivered and the library accepting every file, there are N results, and result i has file i's name and length |
| Archive.EntryFor | app/page.jsx:77-78 | an entry has a payload exactly when the data URI has a comma; its name ends in `.jpg` when the file name has an extension and is the file name otherwise |
| Archive.EntryBytes | app/page.jsx:78-80 | an entry without a payload stores no bytes |
| Archive.EntryBytesOfEncoded | app/page.jsx:78-80 | an entry whose payload is the base64 text of some bytes stores exactly those bytes |
| Archive.DownloadZip | app/page.jsx:72-81 | no archive for zero results; otherwise one entry per result in order, named by the `.jpg` rename and holding `split(",")[1]` |
| Archive.EntryNames | app/page.jsx:76-81 | every entry's name is among the archive's names |
| Archive.Contents | app/page.jsx:76-81 | the archive holds one file per distinct entry name |
| Archive.ContentsLastWins | app/page.jsx:76-81 | a name holds the bytes of the last entry added under it |
| Archive.EntryNamesFromEntries | app/page.jsx:76-81 | every archive name comes from some entry |
| Archive.ContentsSize | app/page.jsx:76-81 | the archive never has more files than entries |
| Archive.ContentsSizeDistinct | app/page.jsx:76-81 | with pairwise different entry names, the archive has exactly one file per entry |
| Archive.SameStemCollides | app/page.jsx:76-81 | two results that rename to the same name, like `cat.png` and `cat.jpeg`, leave one archive file holding the later one's bytes |
| Archive.ArchiveHoldsEncodedBytes | app/page.jsx:77-80 | the archive entry for a successful answer is named after the upload with `.jpg` and holds exactly the image library's output bytes |

## Left out

- Pixel decoding, resizing and JPEG encoding by `sharp`: a foreign library. It is the `Codec` parameter, with no promise about output size or dimensions. Output dimensions, and any relation between quality and output size, are therefore not stated.
- HTTP transport, `FormData`, `fetch`, `NextResponse` and JSON (de)serialisation: the form is a datatype, and each request's outcome is an oracle value. The status the framework sends for an uncaught exception is not modelled beyond "not a success" (`Crashed`).
- Decimal.ParseIntOfIntToDecimal: treats the page's quality as an exact integer. JavaScript numbers are doubles: `String(q)` switches to exponent notation from 1e21, and `parseInt` rounds beyond 2^53. The read-back therefore holds in the source only for magnitudes below 2^53. The page's slider (app/page.jsx:195-201) keeps quality within 60..100.
- OptimizeRoute.QualityPassedUnchanged: holds in the source only for qualities of magnitude below 2^53, for the same reason.
- Decimal.ParseInt: does not skip leading whitespace as `parseInt` does, so quality text such as `" 90"` reads as NaN rather than 90.
- Preset keys inherited from JavaScript's object prototype (`toString`, …): the catalog is a finite map of the four keys, so those names are rejected.
- Savings.SavedPercent: uses exact rational rounding. It does not model floating-point error in `(saved / original) * 100` just below a half.
- `formatBytes` (app/page.jsx:92-98): floating-point logarithms and `toFixed`.
- Archive.EntryBytes: a missing payload (`split(",")[1]` is `undefined`) stores no bytes. JSZip may instead store an empty file for such an entry. Answers from the endpoint always hold a comma, so this case does not arise for them.
- JSZip's archive encoding, `saveAs` and the file name `optimized-images.zip`: the archive is a map from entry name to bytes. Archive.EntryBytes decodes strictly, while JSZip's decoder is lenient. The two agree on everything the endpoint produces.
- `react-dropzone`'s file-type filter: the selection is whatever list the widget hands over.
- Rendering, CSS, `tailwind.config.js`, and React's batching of state updates. `ProcessBatch` reports the state while each file is in flight as `trace`.
- Batch.ProcessBatch: treats a batch as one uninterrupted run. Only the Process button is disabled while busy. The dropzone has no `disabled` option (app/page.jsx:31-35), and Clear All is shown as soon as one result arrives and is never disabled (app/page.jsx:223-234). A drop or Clear All during a batch is overwritten by the loop's next `setProcessedImages([...processed])` (app/page.jsx:64), and the closing label (app/page.jsx:69) still counts the old files. Interleaving user actions with a running batch is not modelled.
- `setPreset` / `setQuality`: plain field setters (`Batch.SetPreset`, `Batch.SetQuality`) with nothing to state.
