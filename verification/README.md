# Google CLI search-and-download core, in Dafny

This project models the pure kernel of the `Google CLI` tool (a single Rust
`main` in `src/main.rs`). The tool sends one query to the Google Custom Search
JSON API. It turns the returned items into result records. Then it either
prints them or downloads the linked files. Downloads are filtered by an
extension allow-list that is taken from each response's `Content-Type`.

The model has one module per stage of that flow:

- `Query` builds the ordered list of query-string parameters of the search request.
- `Results` maps API items (`title`, `link`, `snippet`) to results (`title`, `link`, `description`).
- `Policy` holds the download policy:
  - the header's byte check and the extension taken from `split('/').nth(1)`;
  - the case-sensitive allow-list and the presence-only `--unsafe` override;
  - the target path `dir/title.ext`.
- `Batch` is the download loop. It is a fold over the results. One `ItemWorld` per result says how that result's fetch, header, `File::create`, body read and `write_all` turn out. The module also holds the same loop as a `while` method.
- `Console` renders results as `title\nlink\ndescription\n\n` blocks, with a parser that reads the output back.
- `Cli` ties the stages together in one run. It reports the request, the effects in order, the progress count and the exit status.
- `Text`, `Effects` and `Wrappers` are helpers:
  - `Text` holds Rust's single-character `str::split` and its inverse `Join`;
  - `Effects` is the log of stdout lines, file creations and file writes;
  - `Wrappers` is `Option`.

Behaviour of the code that the model keeps, and that a reader of the help
texts might not expect:

- A missing `content-type` header panics (`unwrap` on line 143), and so does one that is not visible ASCII. Either panic ends the whole run with status 101. Neither is handled per item.
- The `-o` help text on line 85 lists JPG among the downloaded types and promises that HTML files are converted into PDF. In the code, `image/jpeg` gives the extension `jpeg`, which is not in the allow-list (`jpg` is). So without `--unsafe` such a response is skipped (`Batch.JpegSkippedWithoutUnsafe`). `text/html` gives `html` and is skipped too (`Policy.RejectedExtensions`). Nothing converts HTML.
- A failure of `File::create`, of reading the body or of `write_all` is returned by `?`. It stops the remaining batch and gives exit status 1. The file is created before the body is read, so a failed read or write leaves it behind (`Batch.LateFailureLeavesCreatedFile`).
- `-o ""` gives the output directory `""`: line 138 keeps any given value as it is. Its `unwrap_or(".")` would apply only to a flag without a value, which the parser of line 86 never produces (`Cli.OutputDir`).

## Model

| member | source | states |
|---|---|---|
| `Query.SearchParams` | src/main.rs:104-114 | the list starts with `key`, `cx`, `q` in that order; `fileType` comes fourth when a file type is given; `siteSearch` comes last when a domain is given; the length is 3 plus one per given option |
| `Query.SearchParamsLookup` | src/main.rs:104-114 | reading the request back finds the API key, engine id and query text; `fileType` is found iff a file type was given and `siteSearch` iff a domain was given, each with the given value |
| `Query.SearchParamsDistinctNames` | src/main.rs:104-114 | no two parameters of the request share a name |
| `Results.MapItems` | src/main.rs:122-128 | mapping keeps the count and order; result i has item i's title and link, and its description is item i's snippet |
| `Results.MapItemsRoundTrip` | src/main.rs:122-128 | mapping loses nothing: the items are recovered from the results, and every result list comes from some items |
| `Text.Split` | src/main.rs:145 | `split('/')` yields at least one field; no field holds the separator; joining the fields with the separator gives back the input |
| `Text.SplitJoin` | src/main.rs:145 | splitting undoes joining when no field holds the separator |
| `Policy.HeaderText` | src/main.rs:143 | the header reads as text iff every byte is a tab or printable ASCII; the text then has the same length and the same characters as the bytes |
| `Policy.HeaderTextRoundTrip` | src/main.rs:143 | any visible-ASCII header sent as bytes reads back as itself |
| `Policy.ExtensionShape` | src/main.rs:145 | the extension never holds a slash; a header without a slash has extension `"unknown"`; otherwise the extension starts right after the first slash and runs to the next slash or the end |
| `Policy.ExtensionMatchesIndex` | src/main.rs:145 | for every header, the split-based extension equals the text after the first `/` up to the next `/` or the end, and is `"unknown"` when there is no `/` |
| `Policy.ExtensionOfParts` | src/main.rs:145 | `a/b` and `a/b/rest` with slash-free `a`, `b` have extension `b`; a slash-free header has extension `"unknown"` |
| `Policy.ExtensionOfTwoSlashes` | src/main.rs:145 | `"a/b/c"` has extension `"b"` |
| `Policy.ExtensionOfTrailingSlash` | src/main.rs:145 | `"application/"` has the empty extension |
| `Policy.ExtensionKeepsParameters` | src/main.rs:145 | parameters after the subtype stay in the extension: `text/plain` followed by any slash-free parameters, such as `; charset=utf-8`, has extension `plain` followed by the same parameters |
| `Policy.ExtensionOfJpeg` | src/main.rs:145 | `"image/jpeg"` has extension `"jpeg"` |
| `Policy.ExtensionOfEmpty` | src/main.rs:145 | the empty header has extension `"unknown"` |
| `Policy.IsAllowed` | src/main.rs:146-147 | an extension passes the `any` test iff some entry of the list `pdf, txt, md, jpg, png, gif, mp3, mp4, wav` equals it exactly |
| `Policy.ShouldWrite` | src/main.rs:150 | under `--unsafe` every extension is written; otherwise an extension is written iff it is in the allow-list |
| `Policy.RejectedExtensions` | src/main.rs:146-150 | without `--unsafe`, `unknown`, `jpeg`, `html`, `PDF` and `octet-stream` are rejected |
| `Policy.TargetPath` | src/main.rs:151 | the path is the output directory, a slash, the title, a dot and the extension, in that order and nothing else |
| `Policy.TargetPathInjective` | src/main.rs:151 | in one directory and for one extension, the path strings coincide iff the titles do |
| `Batch.ProcessItemPolicy` | src/main.rs:140-161 | for one result: a failed fetch gives an error line and nothing else; a missing or unreadable content type panics; a skip happens iff the run is safe and the extension is off the allow-list; a saved file holds the whole body at `dir/title.ext` and only for an accepted extension; an accepted response is saved iff create, body read and write all succeed |
| `Batch.FilesOnlyForAcceptedItems` | src/main.rs:150-155 | a result touches the filesystem only if the policy accepted its response, and only at `dir/title.ext` |
| `Batch.ProcessItem` | src/main.rs:152-154 | the I/O steps run as written: `File::create`, then the body read, then `write_all`; a step fails the result only when the steps before it succeeded |
| `Batch.ItemEffectsMeaning` | src/main.rs:152-158 | only a failed fetch prints, and it prints `Error: ` and the error on one line; a file is created iff `File::create` was reached and succeeded; only a saved result writes, and it writes the whole body to its path |
| `Batch.LateFailureLeavesCreatedFile` | src/main.rs:150-154 | for an accepted response, when the file is created but the body read or the write fails, the file is left created, no `WriteFile` effect is logged, and the run stops with an I/O error, not a panic |
| `Batch.BatchFilesAtTargetPaths` | src/main.rs:139-155 | every file the whole loop creates or writes is at `dir/title.ext` of some result whose response the policy accepted |
| `Batch.RunPrefixShape` | src/main.rs:139-163 | after k results the counter equals the number of outcomes, at most k; outcome j is result j's; only the last outcome can be an abort; the loop has not stopped iff no outcome aborts, and then it has looked at all k results |
| `Batch.DownloadBatch` | src/main.rs:136-166 | the final counter equals the number of outcomes; it is at most the number of results, and equal to it when the loop did not stop |
| `Batch.DownloadBatchOutcome` | src/main.rs:136-166 | the loop runs to the end, with the counter at the number of results, iff no result aborts; otherwise it stops right after the first aborting result, which is counted |
| `Batch.SafeModeSavesOnlyAllowed` | src/main.rs:146-151 | without `--unsafe`, every saved file has an allow-listed extension and the path `dir/title.ext` |
| `Batch.UnsafeModeSavesEveryResult` | src/main.rs:150-154 | with `--unsafe`, when every header is readable and every I/O step succeeds, every result is saved with its whole body at `dir/title.ext`, whatever the extension |
| `Batch.FailedFetchesOnlyPrint` | src/main.rs:157-160 | when every fetch fails, the batch still runs to the end; there is one error outcome per result, no file is touched, and standard output is one `Error: ` line per result with its error, in order |
| `Batch.ResponseExtensionOfHeader` | src/main.rs:143-145 | a response whose content-type bytes carry a visible-ASCII text has that text's extension |
| `Batch.JpegResponseExtension` | src/main.rs:143-145 | a response whose content type reads `kind/jpeg` (for example `image/jpeg`) has extension `jpeg` |
| `Batch.SkippedByExtension` | src/main.rs:146-150 | a readable response whose extension the policy rejects is skipped, whatever the file operations would do |
| `Batch.SavedByExtension` | src/main.rs:150-154 | a readable response whose extension the policy accepts is saved whole at `dir/title.ext` when create, body read and write succeed |
| `Batch.JpegSkippedWithoutUnsafe` | src/main.rs:145-150 | without `--unsafe`, a `kind/jpeg` response such as `image/jpeg` is skipped as `jpeg`, even when everything else works |
| `Batch.JpegSavedWithUnsafe` | src/main.rs:145-154 | with `--unsafe`, a `kind/jpeg` response whose I/O succeeds is saved as `dir/title.jpeg` |
| `Batch.DownloadAll` | src/main.rs:136-166 | the `for` loop, which increments the counter before each fetch and leaves on an abort, ends in the state the fold describes; its effects are the outcomes' effects in order |
| `Console.ConsoleEffects` | src/main.rs:169-171 | console mode prints exactly one block per result, in input order, and touches no file |
| `Console.Block` | src/main.rs:170 | a result's block starts with its title and a line break, ends with a blank line, and is four characters longer than its three fields |
| `Console.BlockAsLines` | src/main.rs:170 | a block is the title, link, description and an empty line, joined by line breaks, with a final line break |
| `Console.ConsoleStdout` | src/main.rs:169-171 | the printed text is the concatenation of the blocks `title\nlink\ndescription\n\n` |
| `Console.ConsoleRoundTrip` | src/main.rs:169-171 | when no field holds a line break, the printed text reads back as the same results in the same order |
| `Cli.ExitCode` | src/main.rs:49 | the exit status is 0 iff `main` returns `Ok`, 1 iff it returns an error (a failed search or an I/O error in the loop), and 101 iff a content-type `unwrap` panicked |
| `Cli.RunExitStatus` | src/main.rs:117-166 | a failed search exits with 1 and console mode with 0; in download mode the status is 0 iff no result aborts, and otherwise it is 101 or 1 according as the first aborting result panicked or failed an I/O step |
| `Cli.OutputDir` | src/main.rs:138 | line 138 as written: a given value, the empty one included, is the directory as it is; a flag without a value, which the parser of line 86 never yields, would give `.` |
| `Cli.BareOutputFlagWritesHere` | src/main.rs:138-155 | the `unwrap_or(".")` fallback of line 138 as written: were the flag to carry no value, every file the run creates or writes would have a path that starts with `./` |
| `Cli.Run` | src/main.rs:103-174 | the request carries the built parameters. A failed search has no output and no progress. Without `-o`, the run prints the mapped results and completes. With `-o`, the run completes iff the download loop did not stop, and it ends with the loop's counter and effects |
| `Cli.ConsoleModeRun` | src/main.rs:133-171 | without `-o`, no file is written; there is one output block per item; the output reads back as the items |
| `Cli.FailedFetchesExitZero` | src/main.rs:139-174 | in download mode, when every fetch fails, the counter reaches the number of results, no file is touched and the exit status is 0 |

## Left out

- Argument parsing with clap (lines 52-94) is left out. The parsed options are the `Cli.Options` value. `-o` is `NotGiven` or `Given` with the parser's value.
- The lookup of `GOOGLE_API_KEY` and `SEARCH_ENGINE_ID` and its `expect` panics (lines 99-100) are left out. The key and the engine id are parameters of `Cli.Run`.
- The HTTP requests, the JSON decoding and the tokio runtime (lines 103-119, 141, 153) are left out. The search outcome is a parameter. Each download's outcome is an `ItemWorld` in a sequence as long as the results.
- The endpoint URL constant, and the URL encoding reqwest applies to the parameters, are left out. The model keeps the parameters as name and value pairs.
- Real file writes (lines 152-154) are an ordered log of `CreateFile` and `WriteFile` effects. A failed `write_all` is modelled as creating the file and then stopping. What part of the content reaches the disk is not modelled.
- The indicatif progress bar (lines 136, 166) is left out, apart from its counter.
- The message that the Rust runtime prints on stderr when `main` returns an error or panics is left out. So is the text of reqwest's error `Display`. The fetch error message is a string parameter.
- The `MyError` wrapper (lines 30-45) is left out because it only boxes reqwest errors.
- `Cli.Run` does not model the panics of `env::var(...).expect`. The run starts after configuration has been read.
- `Cli.OutputDir` admits a `-o` flag without a value (`Given(None)`), although clap with `.takes_value(true)` on line 86 rejects a bare `-o`. So the `.` fallback it and `Cli.BareOutputFlagWritesHere` describe is line 138 as written, unreachable in a real run.
- `--unsafe` is also declared with `.takes_value(true)` (lines 89-92). Its value is ignored by the code, and the model keeps only whether the flag is present.
- `Policy.TargetPathInjective` compares path strings only. Path normalisation (`./x`, `a/../x`), titles that hold `/`, and case-insensitive filesystems are not modelled, so two distinct strings may still name one file.
